/** The encoder: walks a struct with a field iterator and writes it to a stream. Nested lengths
    come from a sizing pass over the same struct. */
module Encoder {
  import opened Bits
  import opened Wire
  import opened Descriptors
  import opened Encoding
  import opened FieldIters
  import opened OutStreams

  // ---------------------------------------------------- proto3 default test

  /** Whether a field can be left out of a proto3 message. */
  method CheckProto3Default(fields: seq<Field>, slots: seq<Slot>, i: nat) returns (isDefault: bool)
    requires WellFormed(fields) && Typed(fields, slots) && i < |fields|
    ensures isDefault == DefaultFieldTest(fields, slots, i)
    decreases fields, 0
  {
    var f, slot := fields[i], SlotOf(fields, slots, i);
    assert WellFormedField(f);
    match f.htype
    case Required => return false;
    case Repeated =>
      if f.sizeOffset != 0 { return slot.count == 0; }
      return false;
    case Oneof => return slot.which == 0;
    case Optional =>
      if f.sizeOffset != 0 { return !slot.has; }
      isDefault := CheckDefaultValue(f, slot.v);
  }

  /** The value test of a singular field; a submessage is walked until a field fails. */
  method CheckDefaultValue(f: Field, v: Value) returns (isDefault: bool)
    requires WellFormedField(f) && TypedValue(f, v)
    ensures isDefault == DefaultValueTest(f, v)
    ensures v.Int? ==> (isDefault <==> v.n == 0)
    ensures f.ltype.String? ==> (isDefault <==> v.b == [] || v.b[0] == 0)
    ensures f.ltype.Bytes? ==> (isDefault <==> v.b == [])
    ensures f.ltype.FixedLengthBytes? ==> (isDefault <==> f.dataSize == 0)
    decreases f, 1
  {
    if f.ltype.Bytes? {
      return |v.b| == 0;
    } else if f.ltype.String? {
      return |v.b| == 0 || v.b[0] == 0;
    } else if f.ltype.FixedLengthBytes? {
      return f.dataSize == 0;
    } else if f.ltype.Submessage? {
      LaidOutSomehow(f.sub);
      var iter := new FieldIter();
      var more := iter.Begin(f.sub, 0, LayoutOf(f.sub));
      ghost var checked := 0;
      while more
        invariant iter.Valid() && fresh(iter) && iter.start == f.sub
        invariant checked == if more then iter.pos else |f.sub|
        invariant more ==> iter.pos < |f.sub|
        invariant forall j | 0 <= j < checked :: DefaultFieldTest(f.sub, v.slots, j)
        decreases |f.sub| - checked
      {
        var fieldIsDefault := CheckProto3Default(f.sub, v.slots, iter.pos);
        if !fieldIsDefault { return false; }
        more := iter.Next();
        checked := checked + 1;
      }
      assert DefaultTest(f.sub, v.slots);
      return true;
    }
    return v.n == 0;
  }

  // ---------------------------------------------------------- single values

  /** A character of a slot: the terminator follows the string if there is room. */
  function CharAt(b: seq<byte>, i: nat): byte {
    if i < |b| then b[i] else 0
  }

  /** The part of a character slot up to the terminator or the end of the slot. */
  method StringLength(b: seq<byte>, maxSize: nat) returns (size: nat)
    requires |b| <= maxSize
    ensures size <= |b| && 0 !in b[..size] && (size == |b| || b[size] == 0)
    ensures b[..size] == CStr(b)
  {
    size := 0;
    while size < maxSize && CharAt(b, size) != 0
      invariant size <= |b| && forall k | 0 <= k < size :: b[k] != 0
    {
      size := size + 1;
    }
    OnlyCStr(b, size);
  }

  method EncodeTagForField(s: OutStream, f: Field) returns (ok: bool)
    requires s.Valid() && f.tag < TWO_32
    modifies s, s.buf
    ensures s.Valid() && s.Untouched() && s.overrun == old(s.overrun)
    ensures ok <==> old(s.Fits(|EncTag(f)|))
    ensures s.output == if ok then old(s.output) + EncTag(f) else old(s.output)
  {
    ok := s.EncodeTag(WireTypeOf(f.ltype), f.tag);
  }

  /** The type's own encoder. */
  method EncodeValue(s: OutStream, f: Field, v: Value) returns (ok: bool)
    requires WellFormedField(f) && TypedValue(f, v)
    requires s.Valid()
    modifies s, s.buf
    ensures s.Valid() && s.Untouched() && s.OverrunOnlyPast(ok, |EncValue(f, v)|)
    ensures ok <==> EncodableValue(f, v) && old(s.Fits(|EncValue(f, v)|))
    ensures ok ==> s.output == old(s.output) + EncValue(f, v)
    ensures old(s.output) <= s.output
    decreases f, 0
  {
    hide EncVarint, LittleEndian, ZigZag, WellFormed, Typed, EncMsg, Encodable;
    match f.ltype
    case Bool =>
      ok := s.EncodeVarint(if v.n != 0 then 1 else 0);
    case Varint =>
      if !IntWidth(f.dataSize) { return false; }
      ok := s.EncodeVarint(AsUnsigned(v.n));
    case UVarint =>
      if !IntWidth(f.dataSize) { return false; }
      ok := s.EncodeVarint(v.n);
    case SVarint =>
      if !IntWidth(f.dataSize) { return false; }
      ok := s.EncodeSVarint(v.n);
    case Fixed32 =>
      ok := s.EncodeFixed(v.n, 4);
    case Fixed64 =>
      ok := s.EncodeFixed(v.n, 8);
    case Bytes =>
      if |v.b| + BYTES_HEADER > f.dataSize { return false; }
      ok := s.EncodeString(v.b);
    case String =>
      var size := StringLength(v.b, f.dataSize);
      ok := s.EncodeString(v.b[..size]);
    case FixedLengthBytes =>
      ok := s.EncodeString(v.b);
    case Submessage =>
      ok := EncodeSubmessage(s, f.sub, v.slots);
  }

  method EncodeTagged(s: OutStream, f: Field, v: Value) returns (ok: bool)
    requires WellFormedField(f) && TypedValue(f, v)
    requires s.Valid()
    modifies s, s.buf
    ensures s.Valid() && s.Untouched() && s.OverrunOnlyPast(ok, |EncTag(f) + EncValue(f, v)|)
    ensures ok <==> EncodableValue(f, v) && old(s.Fits(|EncTag(f) + EncValue(f, v)|))
    ensures ok ==> s.output == old(s.output) + (EncTag(f) + EncValue(f, v))
    ensures old(s.output) <= s.output
    decreases f, 1
  {
    hide EncTag, EncValue, EncodableValue, WellFormedField, TypedValue, SizeT;
    FieldParts(f);
    ok := EncodeTagForField(s, f);
    if !ok { return; }
    ok := EncodeValue(s, f, v);
  }

  // ------------------------------------------------------------ submessages

  /** The size that encoding will take, as far as a size_t can tell. */
  method GetEncodedSize(fields: seq<Field>, slots: seq<Slot>) returns (size: nat, ok: bool)
    requires WellFormed(fields) && Typed(fields, slots)
    ensures ok <==> Encodable(fields, slots)
    ensures ok ==> size == SizeT(|EncMsg(fields, slots)|)
    decreases fields, 5
  {
    var stream := new OutStream.Sizing();
    size := 0;
    ok := EncodeMessage(stream, fields, slots);
    if ok { size := stream.bytesWritten; }
  }

  /** Sizes the message with a counting stream, writes the length, and then encodes it again into
      a substream of exactly that capacity. */
  method EncodeSubmessage(s: OutStream, fields: seq<Field>, slots: seq<Slot>) returns (ok: bool)
    requires WellFormed(fields) && Typed(fields, slots)
    requires s.Valid()
    modifies s, s.buf
    ensures s.Valid() && s.Untouched() && s.OverrunOnlyPast(ok, |Prefixed(EncMsg(fields, slots))|)
    ensures ok <==> Encodable(fields, slots) && old(s.Fits(|Prefixed(EncMsg(fields, slots))|))
    ensures ok ==> s.output == old(s.output) + Prefixed(EncMsg(fields, slots))
    ensures old(s.output) <= s.output
    ensures var size := |EncMsg(fields, slots)|;
            var prefix := |Prefixed(EncMsg(fields, slots))| - size;
            !s.sizing && !old(s.overrun) && size <= SIZE_MAX ==>
              (s.overrun <==> && Encodable(fields, slots) && old(s.Fits(prefix))
                              && old(s.bytesWritten) + prefix + size > SIZE_MAX)
    decreases fields, 7
  {
    hide EncMsg, EncVarint, Encodable, WellFormed, Typed, SizeT;
    var size;
    size, ok := GetEncodedSize(fields, slots);
    if !ok { return; }
    ok := s.EncodeVarint(size);
    if !ok { return; }
    ok := EncodeBody(s, fields, slots, size);
  }

  /** After the length: a counting stream only adds the size, a writing one tests for room. The test
      lets through exactly what fits and what would take the sum beyond SIZE_MAX; in the second case
      the substream exceeds the buffer, and the model stops. */
  method EncodeBody(s: OutStream, fields: seq<Field>, slots: seq<Slot>, size: nat) returns (ok: bool)
    requires WellFormed(fields) && Typed(fields, slots) && Encodable(fields, slots)
    requires size == SizeT(|EncMsg(fields, slots)|)
    requires s.Valid()
    modifies s, s.buf
    ensures s.Valid() && s.Untouched() && s.OverrunOnlyPast(ok, |EncMsg(fields, slots)|)
    ensures ok <==> old(s.Fits(|EncMsg(fields, slots)|))
    ensures ok ==> s.output == old(s.output) + EncMsg(fields, slots)
    ensures old(s.output) <= s.output
    ensures !s.sizing && !old(s.overrun) && |EncMsg(fields, slots)| <= SIZE_MAX ==>
              (s.overrun <==> old(s.bytesWritten) + |EncMsg(fields, slots)| > SIZE_MAX)
    decreases fields, 6
  {
    hide EncMsg, Encodable, WellFormed, Typed, AddSize, SizeT;
    if s.sizing {
      s.Advance(size, EncMsg(fields, slots));
      return true;
    }
    RoomTestExact(s.bytesWritten, size, s.maxSize);
    if AddSize(s.bytesWritten, size) > s.maxSize {
      return false;
    }
    if s.bytesWritten + size > SIZE_MAX {
      s.overrun := true;
      return false;
    }
    ok := EncodeIntoSubstream(s, fields, slots, size);
  }

  /** The second pass writes exactly as many bytes as the first one counted, unless the count did not
      fit size_t; then it runs out of room. */
  method EncodeIntoSubstream(s: OutStream, fields: seq<Field>, slots: seq<Slot>, size: nat) returns (ok: bool)
    requires WellFormed(fields) && Typed(fields, slots) && Encodable(fields, slots)
    requires size == SizeT(|EncMsg(fields, slots)|)
    requires s.Valid() && !s.sizing && s.Fits(size)
    modifies s, s.buf
    ensures s.Valid() && s.Untouched() && s.OverrunOnlyPast(ok, |EncMsg(fields, slots)|)
    ensures ok <==> size == |EncMsg(fields, slots)|
    ensures ok ==> s.output == old(s.output) + EncMsg(fields, slots)
    ensures old(s.output) <= s.output
    ensures |EncMsg(fields, slots)| <= SIZE_MAX ==> s.overrun == old(s.overrun)
    decreases fields, 5
  {
    hide EncMsg, Encodable, WellFormed, Typed, SizeT;
    var substream := new OutStream.Writing(s.buf, s.state, size);
    var status := EncodeMessage(substream, fields, slots);
    assert s.buf[s.base..s.state] == old(s.buf[s.base..s.state]);
    s.TakeOver(substream);
    if substream.bytesWritten != size {
      assert !status; // "submsg size changed" is reported only after another error
      return false;
    }
    return status;
  }

  // ----------------------------------------------------------------- arrays

  /** The bytes a packed array will take: computed for fixed-width types, counted for the others. */
  method PackedSize(f: Field, elems: seq<Value>) returns (size: nat, ok: bool)
    requires WellFormedField(f) && AllTyped(f, elems) && Packable(f.ltype)
    ensures ok <==> AllEncodable(f, elems)
    ensures ok ==> size == SizeT(|EncPacked(f, elems)|)
    decreases f, 3
  {
    if f.ltype.Fixed32? {
      FixedWidth(f, elems, 4);
      return SizeT(4 * |elems|), true;
    } else if f.ltype.Fixed64? {
      FixedWidth(f, elems, 8);
      return SizeT(8 * |elems|), true;
    }
    var sizestream := new OutStream.Sizing();
    size := 0;
    ok := EncodeElements(sizestream, f, elems);
    size := sizestream.bytesWritten;
  }

  lemma {:induction false} FixedWidth(f: Field, elems: seq<Value>, width: nat)
    requires WellFormedField(f) && AllTyped(f, elems)
    requires if width == 4 then f.ltype.Fixed32? else width == 8 && f.ltype.Fixed64?
    ensures |EncPacked(f, elems)| == width * |elems| && AllEncodable(f, elems)
    decreases |elems|
  {
    if elems != [] { FixedWidth(f, elems[1..], width); }
  }

  lemma {:induction false} PackedSplit(f: Field, elems: seq<Value>, i: nat)
    requires WellFormedField(f) && AllTyped(f, elems) && i < |elems|
    ensures EncPacked(f, elems[i..]) == EncValue(f, elems[i]) + EncPacked(f, elems[i + 1..])
  {
    assert elems[i..][1..] == elems[i + 1..];
  }

  lemma EntriesSplit(f: Field, elems: seq<Value>, i: nat)
    requires WellFormedField(f) && AllTyped(f, elems) && i < |elems|
    ensures EncEntries(f, elems[i..]) == EncTag(f) + EncValue(f, elems[i]) + EncEntries(f, elems[i + 1..])
  {
    assert elems[i..][1..] == elems[i + 1..];
  }

  /** The elements back to back, as in the payload of a packed array. */
  method EncodeElements(s: OutStream, f: Field, elems: seq<Value>) returns (ok: bool)
    requires WellFormedField(f) && AllTyped(f, elems)
    requires s.Valid()
    modifies s, s.buf
    ensures s.Valid() && s.Untouched() && s.OverrunOnlyPast(ok, |EncPacked(f, elems)|)
    ensures ok <==> AllEncodable(f, elems) && old(s.Fits(|EncPacked(f, elems)|))
    ensures ok ==> s.output == old(s.output) + EncPacked(f, elems)
    ensures old(s.output) <= s.output
    decreases f, 2
  {
    hide EncValue, EncodableValue, TypedValue, WellFormedField, SizeT;
    assert elems[0..] == elems;
    for i := 0 to |elems|
      invariant s.Valid() && s.Untouched() && s.overrun == old(s.overrun)
      invariant old(s.output) <= s.output
      invariant s.output + EncPacked(f, elems[i..]) == old(s.output) + EncPacked(f, elems)
      invariant forall j | 0 <= j < i :: EncodableValue(f, elems[j])
    {
      PackedSplit(f, elems, i);
      ok := EncodeValue(s, f, elems[i]);
      if !ok { return; }
    }
    return true;
  }

  /** One tagged record per element. */
  method EncodeEntries(s: OutStream, f: Field, elems: seq<Value>) returns (ok: bool)
    requires WellFormedField(f) && AllTyped(f, elems)
    requires s.Valid()
    modifies s, s.buf
    ensures s.Valid() && s.Untouched() && s.OverrunOnlyPast(ok, |EncEntries(f, elems)|)
    ensures ok <==> AllEncodable(f, elems) && old(s.Fits(|EncEntries(f, elems)|))
    ensures ok ==> s.output == old(s.output) + EncEntries(f, elems)
    ensures old(s.output) <= s.output
    decreases f, 2
  {
    hide EncValue, EncodableValue, TypedValue, WellFormedField, EncTag, SizeT;
    assert elems[0..] == elems;
    for i := 0 to |elems|
      invariant s.Valid() && s.Untouched() && s.overrun == old(s.overrun)
      invariant old(s.output) <= s.output
      invariant s.output + EncEntries(f, elems[i..]) == old(s.output) + EncEntries(f, elems)
      invariant forall j | 0 <= j < i :: EncodableValue(f, elems[j])
    {
      EntriesSplit(f, elems, i);
      ok := EncodeTagged(s, f, elems[i]);
      if !ok { return; }
    }
    return true;
  }

  /** One length-delimited record with all elements, sized before they are written. */
  method EncodePackedArray(s: OutStream, f: Field, elems: seq<Value>) returns (ok: bool)
    requires WellFormedField(f) && AllTyped(f, elems) && Packable(f.ltype)
    requires s.Valid()
    modifies s, s.buf
    ensures s.Valid() && s.Untouched()
    ensures s.OverrunOnlyPast(ok, |EncVarint(f.tag * 8 + WT_STRING) + Prefixed(EncPacked(f, elems))|)
    ensures ok <==> AllEncodable(f, elems)
                    && old(s.Fits(|EncVarint(f.tag * 8 + WT_STRING) + Prefixed(EncPacked(f, elems))|))
    ensures ok ==> s.output == old(s.output) + (EncVarint(f.tag * 8 + WT_STRING) + Prefixed(EncPacked(f, elems)))
    ensures old(s.output) <= s.output
    decreases f, 5
  {
    hide AllEncodable, EncPacked, WellFormedField, AllTyped, EncVarint, Packable, SizeT, Prefixed;
    FieldParts(f);
    ok := s.EncodeTag(WT_STRING, f.tag);
    if !ok { return; }
    ok := EncodePackedPayload(s, f, elems);
  }

  /** The length of the payload, and the payload itself, which a counting stream only adds up. */
  method EncodePackedPayload(s: OutStream, f: Field, elems: seq<Value>) returns (ok: bool)
    requires WellFormedField(f) && AllTyped(f, elems) && Packable(f.ltype)
    requires s.Valid()
    modifies s, s.buf
    ensures s.Valid() && s.Untouched() && s.OverrunOnlyPast(ok, |Prefixed(EncPacked(f, elems))|)
    ensures ok <==> AllEncodable(f, elems) && old(s.Fits(|Prefixed(EncPacked(f, elems))|))
    ensures ok ==> s.output == old(s.output) + Prefixed(EncPacked(f, elems))
    ensures old(s.output) <= s.output
    decreases f, 4
  {
    hide AllEncodable, EncPacked, WellFormedField, AllTyped, EncVarint, Packable, SizeT;
    var size;
    size, ok := PackedSize(f, elems);
    if !ok { return; }
    ok := s.EncodeVarint(size);
    if !ok { return; }
    if s.sizing {
      s.Advance(size, EncPacked(f, elems));
      return true;
    }
    ok := EncodeElements(s, f, elems);
  }

  /** Arrays are packed whenever the element type allows it. */
  method EncodeArray(s: OutStream, f: Field, elems: seq<Value>) returns (ok: bool)
    requires WellFormedField(f) && AllTyped(f, elems) && elems != []
    requires s.Valid()
    modifies s, s.buf
    ensures s.Valid() && s.Untouched() && s.OverrunOnlyPast(ok, |EncArray(f, elems)|)
    ensures ok <==> AllEncodable(f, elems) && old(s.Fits(|EncArray(f, elems)|))
    ensures ok ==> s.output == old(s.output) + EncArray(f, elems)
    ensures old(s.output) <= s.output
    decreases f, 6
  {
    hide EncValue, EncodableValue, TypedValue, EncPacked, EncEntries, WellFormedField, EncVarint, Prefixed;
    if Packable(f.ltype) {
      ok := EncodePackedArray(s, f, elems);
    } else {
      ok := EncodeEntries(s, f, elems);
    }
  }

  /** More entries than the array has memory for are an error, before any of them is looked at. */
  method EncodeArrayField(s: OutStream, f: Field, slot: Slot) returns (ok: bool)
    requires WellFormedField(f) && slot.Many? && AllTyped(f, slot.items) && |slot.items| == f.arraySize
    requires s.Valid()
    modifies s, s.buf
    ensures s.Valid() && s.Untouched() && s.OverrunOnlyPast(ok, |EncArray(f, Entries(slot))|)
    ensures ok <==> && slot.count <= f.arraySize && AllEncodable(f, Entries(slot))
                    && old(s.Fits(|EncArray(f, Entries(slot))|))
    ensures ok ==> s.output == old(s.output) + EncArray(f, Entries(slot))
    ensures old(s.output) <= s.output
    decreases f, 7
  {
    hide EncArray, AllEncodable, WellFormedField, TypedValue;
    if slot.count == 0 {
      NoEntries(f, slot);
      return true;
    }
    if slot.count > f.arraySize { return false; }
    ok := EncodeArray(s, f, Entries(slot));
  }

  lemma NoEntries(f: Field, slot: Slot)
    requires WellFormedField(f) && slot.Many? && AllTyped(f, slot.items) && slot.count == 0
    ensures Entries(slot) == [] && AllEncodable(f, []) && EncArray(f, []) == []
  {
  }

  // ----------------------------------------------------------------- fields

  method EncodeBasicField(s: OutStream, fields: seq<Field>, slots: seq<Slot>, i: nat) returns (ok: bool)
    requires WellFormed(fields) && Typed(fields, slots) && i < |fields|
    requires s.Valid()
    modifies s, s.buf
    ensures s.Valid() && s.Untouched() && s.OverrunOnlyPast(ok, |EncField(fields, slots, i)|)
    ensures ok <==> EncodableField(fields, slots, i) && old(s.Fits(|EncField(fields, slots, i)|))
    ensures ok ==> s.output == old(s.output) + EncField(fields, slots, i)
    ensures old(s.output) <= s.output
    decreases fields, 3
  {
    hide WellFormed, WellFormedField, Typed, TypedSlot, TypedValue, EncValue, EncodableValue, EncArray, EncTag,
         DefaultValueTest;
    var f, slot := fields[i], SlotOf(fields, slots, i);
    FieldOk(fields, slots, i);
    var implicitHas := true;
    if f.sizeOffset == 0 && f.htype.Optional? {
      var isDefault := CheckProto3Default(fields, slots, i);
      implicitHas := !isDefault;
    }
    match f.htype
    case Required =>
      ok := EncodeTagged(s, f, slot.v);
    case Optional =>
      if (if f.sizeOffset != 0 then slot.has else implicitHas) {
        ok := EncodeTagged(s, f, slot.v);
      } else {
        ok := true;
      }
    case Repeated =>
      ok := EncodeArrayField(s, f, slot);
    case Oneof =>
      if slot.which == f.tag {
        ok := EncodeTagged(s, f, ValueOf(fields, slots, i));
      } else {
        ok := true;
      }
  }

  // --------------------------------------------------------------- messages

  /** Encodes every field in table order. Succeeds exactly when the struct is encodable and its
      encoding fits, and then appends exactly that encoding. */
  method EncodeMessage(s: OutStream, fields: seq<Field>, slots: seq<Slot>) returns (ok: bool)
    requires WellFormed(fields) && Typed(fields, slots)
    requires s.Valid()
    modifies s, s.buf
    ensures s.Valid() && s.Untouched() && s.OverrunOnlyPast(ok, |EncMsg(fields, slots)|)
    ensures ok <==> Encodable(fields, slots) && old(s.Fits(|EncMsg(fields, slots)|))
    ensures ok ==> s.output == old(s.output) + EncMsg(fields, slots)
    ensures old(s.output) <= s.output
    decreases fields, 4
  {
    hide WellFormed, Typed, EncField, EncodableField, FieldIter.Valid, SizeT;
    LaidOutSomehow(fields);
    var iter := new FieldIter();
    var more := iter.Begin(fields, 0, LayoutOf(fields));
    ghost var i := 0;
    while more
      invariant iter.Valid() && fresh(iter) && iter.start == fields
      invariant i == if more then iter.pos else |fields|
      invariant more ==> iter.pos < |fields|
      invariant s.Valid() && s.Untouched() && s.overrun == old(s.overrun)
      invariant old(s.output) <= s.output
      invariant s.output + EncFrom(fields, slots, i) == old(s.output) + EncMsg(fields, slots)
      invariant forall j | 0 <= j < i :: EncodableField(fields, slots, j)
      decreases |fields| - i
    {
      ok := EncodeBasicField(s, fields, slots, iter.pos);
      if !ok { return; }
      more := iter.Next();
      i := i + 1;
    }
    assert Encodable(fields, slots);
    assert s.output == old(s.output) + EncMsg(fields, slots);
    return true;
  }

  /** A length prefix and the message. */
  method EncodeDelimited(s: OutStream, fields: seq<Field>, slots: seq<Slot>) returns (ok: bool)
    requires WellFormed(fields) && Typed(fields, slots)
    requires s.Valid()
    modifies s, s.buf
    ensures s.Valid() && s.Untouched() && s.OverrunOnlyPast(ok, |Prefixed(EncMsg(fields, slots))|)
    ensures ok <==> Encodable(fields, slots) && old(s.Fits(|Prefixed(EncMsg(fields, slots))|))
    ensures ok ==> s.output == old(s.output) + Prefixed(EncMsg(fields, slots))
  {
    ok := EncodeSubmessage(s, fields, slots);
  }

  /** The message and a zero byte. */
  method EncodeNullTerminated(s: OutStream, fields: seq<Field>, slots: seq<Slot>) returns (ok: bool)
    requires WellFormed(fields) && Typed(fields, slots)
    requires s.Valid()
    modifies s, s.buf
    ensures s.Valid() && s.Untouched() && s.OverrunOnlyPast(ok, |EncMsg(fields, slots)| + 1)
    ensures ok <==> Encodable(fields, slots) && old(s.Fits(|EncMsg(fields, slots)| + 1))
    ensures ok ==> s.output == old(s.output) + EncMsg(fields, slots) + [0]
  {
    ok := EncodeMessage(s, fields, slots);
    if !ok { return; }
    ok := s.Write([0]);
  }

  /** Encoding a valid message into a fresh buffer of n bytes succeeds exactly when n is at least
      the encoded size; the buffer then starts with the encoding. Only a message whose size does not
      fit size_t can lead the encoder to open a substream past the end. */
  method EncodeToBuffer(buffer: array<byte>, fields: seq<Field>, slots: seq<Slot>)
    returns (ok: bool, written: nat, overrun: bool)
    requires WellFormed(fields) && Typed(fields, slots) && buffer.Length <= SIZE_MAX
    modifies buffer
    ensures ok <==> Encodable(fields, slots) && |EncMsg(fields, slots)| <= buffer.Length
    ensures written <= buffer.Length
    ensures ok ==> written == |EncMsg(fields, slots)| && buffer[..written] == EncMsg(fields, slots)
    ensures overrun ==> |EncMsg(fields, slots)| > SIZE_MAX
  {
    hide EncMsg, Encodable, WellFormed, Typed;
    var stream := new OutStream.Writing(buffer, 0, buffer.Length);
    ok := EncodeMessage(stream, fields, slots);
    written, overrun := stream.bytesWritten, stream.overrun;
  }
}
