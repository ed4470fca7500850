/** What the encoder emits for a struct, as a pure function; when it reports an error; and the
    proto3 default test it uses to leave out singular fields. */
module Encoding {
  import opened Bits
  import opened Wire
  import opened Descriptors

  /** The part of a character array that C reads as a string: all of it up to the first zero. */
  function CStr(b: seq<byte>): (s: seq<byte>)
    ensures |s| <= |b| && s == b[..|s|] && 0 !in s
    ensures |s| < |b| ==> b[|s|] == 0
  {
    if b == [] || b[0] == 0 then [] else [b[0]] + CStr(b[1..])
  }

  /** Whatever has no zero in it and ends at one, or at the end, is that part. */
  lemma OnlyCStr(b: seq<byte>, size: nat)
    requires size <= |b| && forall k | 0 <= k < size :: b[k] != 0
    requires size == |b| || b[size] == 0
    ensures 0 !in b[..size] && CStr(b) == b[..size]
  {
  }

  // --------------------------------------------------- proto3 default test

  predicate DefaultValueTest(f: Field, v: Value)
    requires WellFormedField(f) && TypedValue(f, v)
    decreases f, 0
  {
    match f.ltype
    case Bytes => v.b == []
    case String => CStr(v.b) == []
    case FixedLengthBytes => f.dataSize == 0
    case Submessage => DefaultTest(f.sub, v.slots)
    case Bool => v.n == 0
    case Varint => v.n == 0
    case UVarint => v.n == 0
    case SVarint => v.n == 0
    case Fixed32 => v.n == 0
    case Fixed64 => v.n == 0
  }

  predicate DefaultFieldTest(fields: seq<Field>, slots: seq<Slot>, i: nat)
    requires WellFormed(fields) && Typed(fields, slots) && i < |fields|
    decreases fields, 0
  {
    var f, slot := fields[i], SlotOf(fields, slots, i);
    match f.htype
    case Required => false
    case Repeated => !f.FixedCount() && slot.count == 0
    case Oneof => slot.which == 0
    case Optional => if f.sizeOffset != 0 then !slot.has else DefaultValueTest(f, slot.v)
  }

  /** Every field of the struct passes the default test. */
  predicate DefaultTest(fields: seq<Field>, slots: seq<Slot>)
    requires WellFormed(fields) && Typed(fields, slots)
    decreases fields, 1
  {
    forall i | 0 <= i < |fields| :: DefaultFieldTest(fields, slots, i)
  }

  // --------------------------------------------------------------- encoding

  /** The entries of an array below its count, as far as there are any. */
  function Entries(slot: Slot): (elems: seq<Value>)
    requires slot.Many?
    ensures |elems| <= slot.count && |elems| <= |slot.items|
  {
    if slot.count <= |slot.items| then slot.items[..slot.count] else slot.items
  }

  /** A body behind its length, which is kept in a size_t. */
  function Prefixed(body: seq<byte>): (bs: seq<byte>)
    ensures |bs| > |body|
    ensures |body| <= SIZE_MAX ==> bs == Delimited(body)
  {
    EncVarint(SizeT(|body|)) + body
  }

  function EncTag(f: Field): (bs: seq<byte>)
    ensures bs != []
  {
    EncVarint(f.tag * 8 + WireTypeOf(f.ltype))
  }

  function EncValue(f: Field, v: Value): seq<byte>
    requires WellFormedField(f) && TypedValue(f, v)
    decreases f, 0
  {
    match f.ltype
    case Bool => EncVarint(if v.n != 0 then 1 else 0)
    case Varint => EncVarint(AsUnsigned(v.n))
    case UVarint => EncVarint(v.n)
    case SVarint => EncVarint(ZigZag(v.n))
    case Fixed32 => LittleEndian(v.n, 4)
    case Fixed64 => LittleEndian(v.n, 8)
    case Bytes => Delimited(v.b)
    case String => Delimited(CStr(v.b))
    case FixedLengthBytes => Delimited(v.b)
    case Submessage => Prefixed(EncMsg(f.sub, v.slots))
  }

  /** The payload of a packed array. */
  function EncPacked(f: Field, elems: seq<Value>): seq<byte>
    requires WellFormedField(f) && AllTyped(f, elems)
    decreases f, 1, |elems|
  {
    if elems == [] then [] else EncValue(f, elems[0]) + EncPacked(f, elems[1..])
  }

  /** One tagged record per entry. */
  function EncEntries(f: Field, elems: seq<Value>): seq<byte>
    requires WellFormedField(f) && AllTyped(f, elems)
    decreases f, 1, |elems|
  {
    if elems == [] then [] else EncTag(f) + EncValue(f, elems[0]) + EncEntries(f, elems[1..])
  }

  function EncArray(f: Field, elems: seq<Value>): seq<byte>
    requires WellFormedField(f) && AllTyped(f, elems)
    decreases f, 2
  {
    if elems == [] then []
    else if Packable(f.ltype) then EncVarint(f.tag * 8 + WT_STRING) + Prefixed(EncPacked(f, elems))
    else EncEntries(f, elems)
  }

  /** The field is sent: flag set, not proto3-default, or selected. */
  predicate Present(fields: seq<Field>, slots: seq<Slot>, i: nat)
    requires WellFormed(fields) && Typed(fields, slots) && i < |fields|
    decreases fields, 1
  {
    var f, slot := fields[i], SlotOf(fields, slots, i);
    match f.htype
    case Required => true
    case Optional => if f.sizeOffset != 0 then slot.has else !DefaultValueTest(f, slot.v)
    case Repeated => slot.count != 0
    case Oneof => slot.which == f.tag
  }

  /** The value of a present field that is not repeated. */
  function ValueOf(fields: seq<Field>, slots: seq<Slot>, i: nat): (v: Value)
    requires WellFormed(fields) && Typed(fields, slots) && i < |fields|
    requires !fields[i].htype.Repeated? && Present(fields, slots, i)
    ensures TypedValue(fields[i], v)
  {
    var slot := SlotOf(fields, slots, i);
    SelectsMember(fields, i);
    if fields[i].htype.Oneof? then slot.u else slot.v
  }

  function EncField(fields: seq<Field>, slots: seq<Slot>, i: nat): seq<byte>
    requires WellFormed(fields) && Typed(fields, slots) && i < |fields|
    decreases fields, 2
  {
    var f := fields[i];
    if f.htype.Repeated? then EncArray(f, Entries(SlotOf(fields, slots, i)))
    else if Present(fields, slots, i) then EncTag(f) + EncValue(f, ValueOf(fields, slots, i))
    else []
  }

  function EncFrom(fields: seq<Field>, slots: seq<Slot>, i: nat): seq<byte>
    requires WellFormed(fields) && Typed(fields, slots) && i <= |fields|
    decreases fields, 3, |fields| - i
  {
    if i == |fields| then [] else EncField(fields, slots, i) + EncFrom(fields, slots, i + 1)
  }

  function EncMsg(fields: seq<Field>, slots: seq<Slot>): seq<byte>
    requires WellFormed(fields) && Typed(fields, slots)
    decreases fields, 4
  {
    EncFrom(fields, slots, 0)
  }

  // ----------------------------------------------------------------- errors

  /** The encoder finds nothing to complain about in the value. */
  predicate EncodableValue(f: Field, v: Value)
    requires WellFormedField(f) && TypedValue(f, v)
    decreases f, 0
  {
    match f.ltype
    case Varint => IntWidth(f.dataSize)
    case UVarint => IntWidth(f.dataSize)
    case SVarint => IntWidth(f.dataSize)
    case Bytes => |v.b| + BYTES_HEADER <= f.dataSize
    case Submessage => Encodable(f.sub, v.slots)
    case _ => true
  }

  predicate AllEncodable(f: Field, elems: seq<Value>)
    requires WellFormedField(f) && AllTyped(f, elems)
    decreases f, 1
  {
    forall k | 0 <= k < |elems| :: EncodableValue(f, elems[k])
  }

  predicate EncodableField(fields: seq<Field>, slots: seq<Slot>, i: nat)
    requires WellFormed(fields) && Typed(fields, slots) && i < |fields|
    decreases fields, 2
  {
    var f := fields[i];
    if f.htype.Repeated? then
      var slot := SlotOf(fields, slots, i);
      slot.count <= f.arraySize && AllEncodable(f, Entries(slot))
    else Present(fields, slots, i) ==> EncodableValue(f, ValueOf(fields, slots, i))
  }

  /** Encoding the struct reports no error other than a full stream. */
  predicate Encodable(fields: seq<Field>, slots: seq<Slot>)
    requires WellFormed(fields) && Typed(fields, slots)
    decreases fields, 3
  {
    forall i | 0 <= i < |fields| :: EncodableField(fields, slots, i)
  }

  // -------------------------------- passing the default test = empty encoding

  /** A field that is not sent, or an array with a count but no memory for an entry. */
  predicate SendsNothing(fields: seq<Field>, slots: seq<Slot>, i: nat)
    requires WellFormed(fields) && Typed(fields, slots) && i < |fields|
  {
    !Present(fields, slots, i) || (fields[i].htype.Repeated? && fields[i].arraySize == 0)
  }

  lemma EncFieldEmpty(fields: seq<Field>, slots: seq<Slot>, i: nat)
    requires WellFormed(fields) && Typed(fields, slots) && i < |fields|
    ensures EncField(fields, slots, i) == [] <==> SendsNothing(fields, slots, i)
  {
    var f := fields[i];
    if f.htype.Repeated? {
      var e := Entries(SlotOf(fields, slots, i));
      if e != [] && !Packable(f.ltype) {
        assert EncEntries(f, e) == EncTag(f) + EncValue(f, e[0]) + EncEntries(f, e[1..]);
      }
    }
  }

  ghost predicate NonePresent(fields: seq<Field>, slots: seq<Slot>, i: nat)
    requires WellFormed(fields) && Typed(fields, slots)
  {
    forall j | i <= j < |fields| :: SendsNothing(fields, slots, j)
  }

  lemma {:induction false} EncFromEmpty(fields: seq<Field>, slots: seq<Slot>, i: nat)
    requires WellFormed(fields) && Typed(fields, slots) && i <= |fields|
    ensures EncFrom(fields, slots, i) == [] <==> NonePresent(fields, slots, i)
    decreases |fields| - i
  {
    hide WellFormed, Typed, EncField, SendsNothing;
    if i < |fields| {
      EncFromEmpty(fields, slots, i + 1);
      EncFieldEmpty(fields, slots, i);
      assert EncFrom(fields, slots, i) == EncField(fields, slots, i) + EncFrom(fields, slots, i + 1);
    }
  }

  /** Places where the two notions of emptiness differ: an array that has no memory for entries but a
      fixed or nonzero count, or a union whose selector names none of its members. */
  predicate BlindSpot(fields: seq<Field>, slots: seq<Slot>, i: nat)
    requires WellFormed(fields) && Typed(fields, slots) && i < |fields|
  {
    var f, slot := fields[i], SlotOf(fields, slots, i);
    || (f.htype.Repeated? && f.arraySize == 0 && (f.FixedCount() || slot.count != 0))
    || (f.htype.Oneof? && slot.which != 0 && !Selects(fields, Home(fields, i), slot.which))
  }

  predicate NoBlindSpots(fields: seq<Field>, slots: seq<Slot>)
    requires WellFormed(fields) && Typed(fields, slots)
  {
    forall i | 0 <= i < |fields| :: !BlindSpot(fields, slots, i)
  }

  lemma DefaultFieldIsAbsent(fields: seq<Field>, slots: seq<Slot>, i: nat)
    requires WellFormed(fields) && Typed(fields, slots) && i < |fields|
    requires DefaultFieldTest(fields, slots, i)
    ensures SendsNothing(fields, slots, i) && !BlindSpot(fields, slots, i)
  {
    assert WellFormedField(fields[i]);
  }

  lemma AbsentFieldIsDefault(fields: seq<Field>, slots: seq<Slot>, i: nat)
    requires WellFormed(fields) && Typed(fields, slots) && i < |fields|
    requires !BlindSpot(fields, slots, i)
    requires NonePresent(fields, slots, 0)
    ensures DefaultFieldTest(fields, slots, i)
  {
    assert SendsNothing(fields, slots, i);
    if fields[i].htype.Oneof? {
      var which := SlotOf(fields, slots, i).which;
      if Selects(fields, Home(fields, i), which) {
        assert SendsNothing(fields, slots, Lookup(fields, which));
      }
    }
  }

  /** All fields pass the default test exactly when the struct encodes to nothing, blind spots aside. */
  lemma DefaultTestIffEmpty(fields: seq<Field>, slots: seq<Slot>)
    requires WellFormed(fields) && Typed(fields, slots)
    ensures DefaultTest(fields, slots) <==> EncMsg(fields, slots) == [] && NoBlindSpots(fields, slots)
  {
    hide WellFormed, Typed, SendsNothing, BlindSpot, DefaultFieldTest, EncFrom;
    EncFromEmpty(fields, slots, 0);
    if DefaultTest(fields, slots) {
      forall i | 0 <= i < |fields| ensures SendsNothing(fields, slots, i) && !BlindSpot(fields, slots, i) {
        DefaultFieldIsAbsent(fields, slots, i);
      }
    }
    if NonePresent(fields, slots, 0) && NoBlindSpots(fields, slots) {
      forall i | 0 <= i < |fields| ensures DefaultFieldTest(fields, slots, i) {
        AbsentFieldIsDefault(fields, slots, i);
      }
    }
  }

  /** Both kinds of blind spot exist: a fixed-count array of no entries, and a selector that names
      nothing. These structs encode to no bytes and yet fail the default test. */
  lemma BlindSpotsExist()
    ensures var f := Field(1, Fixed32, HType.Repeated, Static, 0, 0, 4, 0, Int(0), []);
            var slots := [Many(0, [])];
            && WellFormed([f]) && Typed([f], slots) && BlindSpot([f], slots, 0)
            && EncMsg([f], slots) == [] && !DefaultTest([f], slots)
    ensures var f := Field(1, Fixed32, HType.Oneof, Static, 0, -1, 4, 0, Int(0), []);
            var slots := [Union(2, Int(0))];
            && WellFormed([f]) && Typed([f], slots) && BlindSpot([f], slots, 0)
            && EncMsg([f], slots) == [] && !DefaultTest([f], slots)
  {
    var f := Field(1, Fixed32, HType.Repeated, Static, 0, 0, 4, 0, Int(0), []);
    var slots := [Many(0, [])];
    assert WellFormedField(f) && TypedSlot([f], 0, slots[0]);
    assert EncFrom([f], slots, 1) == [] == EncField([f], slots, 0);
    assert !DefaultFieldTest([f], slots, 0);
    var g := Field(1, Fixed32, HType.Oneof, Static, 0, -1, 4, 0, Int(0), []);
    var unions := [Union(2, Int(0))];
    assert WellFormedField(g) && TypedSlot([g], 0, unions[0]);
    assert EncFrom([g], unions, 1) == [] == EncField([g], unions, 0);
    assert !DefaultFieldTest([g], unions, 0);
  }
}
