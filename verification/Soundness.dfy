/** Every struct the decoder produces can be sent again. */
module Soundness {
  import opened Bits
  import opened Wire
  import opened Descriptors
  import opened Encoding
  import opened Decoding
  import opened Canonical
  import opened RoundTrip

  /** The value could have come from the decoder: the encoder accepts it, and a string has its
      terminator. Nothing is asked of array memory above a count. */
  predicate SoundValue(f: Field, v: Value)
    requires WellFormedField(f) && TypedValue(f, v)
    decreases f, 0
  {
    if f.ltype.Submessage? then SoundMsg(f.sub, v.slots) else EncodableValue(f, v) && RoomValue(f, v)
  }

  predicate SoundElems(f: Field, elems: seq<Value>)
    requires WellFormedField(f) && AllTyped(f, elems)
    decreases f, 1
  {
    forall k | 0 <= k < |elems| :: SoundValue(f, elems[k])
  }

  lemma PrefixTyped(f: Field, items: seq<Value>, n: nat)
    requires AllTyped(f, items) && n <= |items|
    ensures AllTyped(f, items[..n])
  {
    hide TypedValue;
  }

  predicate SoundSlot(fields: seq<Field>, i: nat, slot: Slot)
    requires i < |fields| && WellFormed(fields) && TypedSlot(fields, i, slot)
    decreases fields, 0
  {
    var f := fields[i];
    assert WellFormedField(f);
    match f.htype
    case Required => SoundValue(f, slot.v)
    case Optional => SoundValue(f, slot.v)
    case Repeated =>
      slot.count <= f.arraySize &&
      (PrefixTyped(f, slot.items, slot.count);
       SoundElems(f, slot.items[..slot.count]))
    case Oneof =>
      Continues(fields, i) || slot.which == 0
      || (Selects(fields, i, slot.which) && SoundValue(fields[Lookup(fields, slot.which)], slot.u))
  }

  predicate SoundMsg(fields: seq<Field>, slots: seq<Slot>)
    requires WellFormed(fields) && Typed(fields, slots)
    decreases fields, 1
  {
    forall i | 0 <= i < |fields| :: SoundSlot(fields, i, slots[i])
  }

  /** What setting the defaults does not overwrite: in fixed-count arrays of scalars, wherever they lie in
      memory, the entries are sound. A table without such arrays asks nothing. */
  predicate KeepableValue(f: Field, v: Value)
    requires WellFormedField(f) && TypedValue(f, v)
    decreases f, 0
  {
    f.ltype.Submessage? ==> Keepable(f.sub, v.slots)
  }

  predicate KeepableItems(f: Field, items: seq<Value>)
    requires WellFormedField(f) && AllTyped(f, items)
    decreases f, 1
  {
    forall k | 0 <= k < |items| :: KeepableValue(f, items[k])
  }

  predicate KeepableSlot(fields: seq<Field>, i: nat, slot: Slot)
    requires i < |fields| && WellFormed(fields) && TypedSlot(fields, i, slot)
    decreases fields, 0
  {
    var f := fields[i];
    assert WellFormedField(f);
    match f.htype
    case Required => KeepableValue(f, slot.v)
    case Optional => KeepableValue(f, slot.v)
    case Repeated =>
      if f.FixedCount() && !f.ltype.Submessage? then SoundElems(f, slot.items) else KeepableItems(f, slot.items)
    case Oneof => true
  }

  predicate Keepable(fields: seq<Field>, slots: seq<Slot>)
    requires WellFormed(fields) && Typed(fields, slots)
    decreases fields, 1
  {
    forall i | 0 <= i < |fields| :: KeepableSlot(fields, i, slots[i])
  }

  /** A table without fixed-count arrays, at any depth. */
  predicate NoFixedCounts(fields: seq<Field>)
    decreases fields
  {
    forall i | 0 <= i < |fields| :: NoFixedCount(fields[i])
  }

  predicate NoFixedCount(f: Field)
    decreases f
  {
    !f.FixedCount() && (f.ltype.Submessage? ==> NoFixedCounts(f.sub))
  }

  /** Without fixed-count arrays any memory will do. */
  lemma {:induction false} AlwaysKeepable(fields: seq<Field>, slots: seq<Slot>)
    requires WellFormed(fields) && Typed(fields, slots) && NoFixedCounts(fields)
    ensures Keepable(fields, slots)
    decreases fields, 1
  {
    hide TypedValue, WellFormedField, KeepableValue, KeepableItems;
    forall i | 0 <= i < |fields| ensures KeepableSlot(fields, i, slots[i]) {
      var f, slot := fields[i], slots[i];
      assert NoFixedCount(f) && TypedSlot(fields, i, slot);
      match f.htype
      case Required => AlwaysKeepableValue(f, slot.v);
      case Optional => AlwaysKeepableValue(f, slot.v);
      case Repeated => AlwaysKeepableItems(f, slot.items);
      case Oneof =>
    }
  }

  lemma {:induction false} AlwaysKeepableItems(f: Field, items: seq<Value>)
    requires WellFormedField(f) && AllTyped(f, items) && NoFixedCount(f)
    ensures KeepableItems(f, items)
    decreases f, 1
  {
    forall k | 0 <= k < |items| ensures KeepableValue(f, items[k]) {
      AlwaysKeepableValue(f, items[k]);
    }
  }

  lemma {:induction false} AlwaysKeepableValue(f: Field, v: Value)
    requires WellFormedField(f) && TypedValue(f, v) && NoFixedCount(f)
    ensures KeepableValue(f, v)
    decreases f, 0
  {
    if f.ltype.Submessage? { AlwaysKeepable(f.sub, v.slots); }
  }

  /** Every scalar row has room for something, its default is sound, and only scalars stand in
      fixed-count arrays, where resetting the count may do anything to a nested struct. */
  predicate SoundTable(fields: seq<Field>)
    requires WellFormed(fields)
    decreases fields
  {
    forall i | 0 <= i < |fields| :: SoundRow(fields[i])
  }

  predicate SoundRow(f: Field)
    requires WellFormedField(f)
    decreases f
  {
    if f.ltype.Submessage? then !f.FixedCount() && SoundTable(f.sub)
    else SoundValue(f, f.dflt) && SoundValue(f, ZeroValue(f))
  }

  predicate GoodValue(f: Field, v: Value)
    requires WellFormedField(f) && TypedValue(f, v)
  {
    SoundValue(f, v) && KeepableValue(f, v)
  }

  // ----------------------------------------------------- defaults are sound

  lemma {:induction false} ZeroKeepable(fields: seq<Field>)
    requires WellFormed(fields) && SoundTable(fields)
    ensures Keepable(fields, ZeroSlots(fields))
    decreases fields, 1
  {
    hide TypedSlot, TypedValue, WellFormedField, SoundRow;
    forall i | 0 <= i < |fields| ensures KeepableSlot(fields, i, ZeroSlots(fields)[i]) {
      assert SoundRow(fields[i]);
      ZeroValueKeepable(fields[i]);
    }
  }

  lemma {:induction false} ZeroValueKeepable(f: Field)
    requires WellFormedField(f) && SoundRow(f)
    ensures KeepableValue(f, ZeroValue(f))
    ensures !f.ltype.Submessage? ==> SoundValue(f, ZeroValue(f))
    decreases f, 0
  {
    if f.ltype.Submessage? { ZeroKeepable(f.sub); }
  }

  lemma {:induction false} DefaultValueSound(f: Field, prior: Value)
    requires WellFormedField(f) && TypedValue(f, prior) && SoundRow(f) && KeepableValue(f, prior)
    ensures GoodValue(f, DefaultValue(f, prior))
    decreases f, 0
  {
    if f.ltype.Submessage? { DefaultsSound(f.sub, prior.slots); }
  }

  lemma StoredOverSound(f: Field, items: seq<Value>)
    requires WellFormedField(f) && AllTyped(f, items) && SoundRow(f) && !f.ltype.Submessage? && SoundElems(f, items)
    ensures SoundElems(f, StoredOver(f, items))
  {
    hide WellFormedField, Cleared, SoundValue;
    var r := StoredOver(f, items);
    forall k | 0 <= k < |r| ensures SoundValue(f, r[k]) {
      assert TypedValue(f, items[k]);
      if k > 0 { MulAtLeast(k, f.dataSize); }
      if f.ltype.Bytes? { BytesFit(f); }
      ClearedSound(f, items[k], if k * f.dataSize < BYTES_HEADER then BYTES_HEADER - k * f.dataSize else 0);
    }
  }

  lemma BytesFit(f: Field)
    requires WellFormedField(f) && SoundRow(f) && f.ltype.Bytes?
    ensures BYTES_HEADER <= f.dataSize
  {
  }

  lemma ClearedSound(f: Field, v: Value, n: nat)
    requires f.ltype.Bytes? ==> n == 0 || n >= BYTES_HEADER
    requires WellFormedField(f) && TypedValue(f, v) && SoundRow(f) && !f.ltype.Submessage? && SoundValue(f, v)
    ensures SoundValue(f, Cleared(f, v, n))
  {
  }

  /** The defaults are sound over any memory that is keepable. */
  lemma {:induction false} DefaultsSound(fields: seq<Field>, prior: seq<Slot>)
    requires WellFormed(fields) && Typed(fields, prior) && SoundTable(fields) && Keepable(fields, prior)
    ensures SoundMsg(fields, Defaults(fields, prior)) && Keepable(fields, Defaults(fields, prior))
    decreases fields, 1
  {
    hide TypedValue, WellFormedField, SoundRow, SoundValue, KeepableValue, StoredOver, DefaultValue, SoundElems;
    forall i | 0 <= i < |fields|
      ensures SoundSlot(fields, i, Defaults(fields, prior)[i]) && KeepableSlot(fields, i, Defaults(fields, prior)[i])
    {
      DefaultSlotSound(fields, i, prior[i]);
    }
  }

  lemma {:induction false} DefaultSlotSound(fields: seq<Field>, i: nat, prior: Slot)
    requires WellFormed(fields) && i < |fields| && WellFormedField(fields[i]) && TypedSlot(fields, i, prior)
    requires SoundTable(fields) && KeepableSlot(fields, i, prior)
    ensures var r := DefaultSlot(fields, i, prior); SoundSlot(fields, i, r) && KeepableSlot(fields, i, r)
    decreases fields, 0
  {
    hide TypedValue, WellFormedField, SoundRow, SoundValue, KeepableValue, KeepableItems, StoredOver, DefaultValue,
         SoundElems;
    var f := fields[i];
    assert SoundRow(f);
    RowParts(f);
    match f.htype
    case Required => DefaultValueSound(f, prior.v);
    case Optional => DefaultValueSound(f, prior.v);
    case Repeated =>
      if f.FixedCount() {
        StoredOverSound(f, prior.items);
        assert StoredOver(f, prior.items)[..f.arraySize] == StoredOver(f, prior.items);
      } else {
        NoElems(f, prior.items);
      }
    case Oneof =>
  }

  lemma NoElems(f: Field, items: seq<Value>)
    requires WellFormedField(f) && AllTyped(f, items)
    ensures AllTyped(f, items[..0]) && SoundElems(f, items[..0])
  {
  }

  lemma RowParts(f: Field)
    requires WellFormedField(f) && SoundRow(f)
    ensures f.FixedCount() ==> !f.ltype.Submessage?
    ensures f.ltype.Submessage? ==> WellFormed(f.sub) && SoundTable(f.sub)
  {
  }

  // ------------------------------------------------------ decoding is sound

  lemma ScalarSound(f: Field, s: seq<byte>)
    requires WellFormedField(f) && !f.ltype.Submessage? && DecScalar(f, s).Done?
    requires SoundRow(f)
    ensures GoodValue(f, DecScalar(f, s).val)
  {
    hide Varint32, Varint64, ReadDelimited, ReadFixed;
    if f.ltype.String? { CStrShorter(ReadDelimited(s).val); }
  }

  lemma CStrShorter(b: seq<byte>)
    ensures |CStr(b)| <= |b|
  {
  }

  /** An array being filled: the entries so far are sound, and the memory is keepable. */
  predicate GoodFill(f: Field, a: Fill)
    requires WellFormedField(f) && FillOk(f, a)
  {
    && a.size <= f.arraySize
    && SoundElems(f, a.items[..a.size])
    && (if f.FixedCount() && !f.ltype.Submessage? then SoundElems(f, a.items) else KeepableItems(f, a.items))
  }

  lemma PutGood(f: Field, a: Fill, v: Value)
    requires WellFormedField(f) && FillOk(f, a) && GoodFill(f, a) && a.size < f.arraySize
    requires TypedValue(f, v) && GoodValue(f, v)
    ensures GoodFill(f, Put(f, a, v))
  {
    hide WellFormedField, TypedValue, SoundValue, KeepableValue;
    var b := Put(f, a, v);
    forall k | 0 <= k < b.size ensures SoundValue(f, b.items[..b.size][k]) {
      assert k < a.size ==> b.items[k] == a.items[..a.size][k];
    }
  }

  lemma {:induction false} PackedSound(f: Field, body: seq<byte>, a: Fill)
    requires WellFormedField(f) && Packable(f.ltype) && FillOk(f, a) && SoundRow(f) && GoodFill(f, a)
    requires DecPacked(f, body, a).Done?
    ensures GoodFill(f, DecPacked(f, body, a).val)
    decreases |body|
  {
    hide WellFormedField, TypedValue, DecScalar, SoundRow, GoodValue, GoodFill, Put;
    if body != [] {
      ScalarSound(f, body);
      var r := DecScalar(f, body);
      PutGood(f, a, r.val);
      PackedSound(f, r.rest, Put(f, a, r.val));
    }
  }

  predicate SoundCursor(fields: seq<Field>, c: Cursor)
    requires WellFormed(fields)
  {
    CursorOk(fields, c) && SoundMsg(fields, c.slots) && Keepable(fields, c.slots)
  }

  lemma SoundUpdate(fields: seq<Field>, slots: seq<Slot>, h: nat, slot: Slot)
    requires WellFormed(fields) && Typed(fields, slots) && SoundMsg(fields, slots) && Keepable(fields, slots)
    requires h < |fields| && TypedSlot(fields, h, slot) && SoundSlot(fields, h, slot) && KeepableSlot(fields, h, slot)
    ensures Typed(fields, slots[h := slot])
    ensures SoundMsg(fields, slots[h := slot]) && Keepable(fields, slots[h := slot])
  {
    hide TypedSlot, SoundSlot, KeepableSlot;
    TypedUpdate(fields, slots, h, slot);
    var r := slots[h := slot];
    forall i | 0 <= i < |fields| ensures SoundSlot(fields, i, r[i]) && KeepableSlot(fields, i, r[i]) {
      assert SoundSlot(fields, i, slots[i]) && KeepableSlot(fields, i, slots[i]);
    }
  }

  lemma FillSound(fields: seq<Field>, i: nat, c: Cursor, a: Fill)
    requires WellFormed(fields) && SoundCursor(fields, c) && i < |fields| && fields[i].htype.Repeated?
    requires WellFormedField(fields[i]) && SoundRow(fields[i]) && (fields[i].FixedCount() ==> c.fixedAt == i)
    requires FillOk(fields[i], a) && GoodFill(fields[i], a)
    ensures SoundCursor(fields, WithFill(fields, i, c, a))
  {
    hide WellFormed, WellFormedField, Typed, TypedValue, SoundValue, SoundMsg, Keepable, SoundElems, KeepableItems,
         SoundRow;
    FieldParts(fields[i]);
    RowParts(fields[i]);
    var slot := Many(if fields[i].FixedCount() then fields[i].arraySize else a.size, a.items);
    if fields[i].FixedCount() { assert slot.items[..slot.count] == a.items; }
    SoundUpdate(fields, c.slots, i, slot);
  }

  lemma ValueSound(fields: seq<Field>, i: nat, c: Cursor, v: Value)
    requires WellFormed(fields) && SoundCursor(fields, c) && i < |fields| && !fields[i].htype.Repeated?
    requires WellFormedField(fields[i]) && TypedValue(fields[i], v) && GoodValue(fields[i], v)
    ensures SoundCursor(fields, WithValue(fields, i, c, v))
  {
    hide WellFormed, WellFormedField, Typed, TypedValue, SoundValue, SoundMsg, Keepable, KeepableValue;
    SelectsMember(fields, i);
    SoundUpdate(fields, c.slots, Home(fields, i), Stored(fields[i], v));
  }

  lemma {:induction false} DecValueSound(f: Field, s: seq<byte>, base: Value)
    requires WellFormedField(f) && TypedValue(f, base) && SoundRow(f) && GoodValue(f, base)
    requires DecValue(f, s, base).Done?
    ensures GoodValue(f, DecValue(f, s, base).val)
    decreases |s|, 0
  {
    hide WellFormed, Typed, DecScalar, ReadDelimited, DecMsg, SoundMsg, Keepable, SoundTable;
    if f.ltype.Submessage? {
      DecodeSound(f.sub, ReadDelimited(s).val, base.slots);
    } else {
      ScalarSound(f, s);
    }
  }

  lemma PrefixSound(f: Field, items: seq<Value>, n: nat)
    requires WellFormedField(f) && AllTyped(f, items) && SoundElems(f, items) && n <= |items|
    ensures AllTyped(f, items[..n]) && SoundElems(f, items[..n])
  {
    hide TypedValue, WellFormedField, SoundValue;
  }

  lemma FillAtSound(fields: seq<Field>, i: nat, c: Cursor)
    requires WellFormed(fields) && SoundTable(fields) && SoundCursor(fields, c) && i < |fields|
    requires WellFormedField(fields[i]) && fields[i].htype.Repeated? && (fields[i].FixedCount() ==> c.fixedAt == i)
    ensures SoundRow(fields[i]) && GoodFill(fields[i], FillAt(fields, i, c))
  {
    hide WellFormed, WellFormedField, Typed, TypedValue, SoundValue, SoundRow, KeepableValue;
    FieldOk(fields, c.slots, i);
    assert SoundRow(fields[i]) && SoundSlot(fields, i, c.slots[i]) && KeepableSlot(fields, i, c.slots[i]);
    RowParts(fields[i]);
    var a := FillAt(fields, i, c);
    PrefixTyped(fields[i], a.items, a.size);
    if fields[i].FixedCount() { PrefixSound(fields[i], a.items, a.size); }
  }

  lemma BaseSound(fields: seq<Field>, i: nat, c: Cursor)
    requires WellFormed(fields) && SoundTable(fields) && SoundCursor(fields, c) && i < |fields|
    requires WellFormedField(fields[i]) && (fields[i].FixedCount() ==> c.fixedAt == i)
    requires fields[i].htype.Repeated? ==> FillAt(fields, i, c).size < fields[i].arraySize
    ensures SoundRow(fields[i]) && GoodValue(fields[i], BaseValue(fields, i, c))
  {
    hide WellFormed, WellFormedField, Typed, TypedValue, SoundValue, SoundRow, DefaultValue, ZeroValue,
         KeepableValue;
    var f := fields[i];
    FieldOk(fields, c.slots, i);
    assert SoundRow(f) && SoundSlot(fields, i, c.slots[i]) && KeepableSlot(fields, i, c.slots[i]);
    match f.htype
    case Required =>
    case Optional =>
    case Repeated =>
      var a := FillAt(fields, i, c);
      FillAtSound(fields, i, c);
      KeepableAt(f, a);
      DefaultValueSound(f, a.items[a.size]);
    case Oneof =>
      ZeroValueKeepable(f);
      DefaultValueSound(f, ZeroValue(f));
  }

  lemma KeepableAt(f: Field, a: Fill)
    requires WellFormedField(f) && FillOk(f, a) && SoundRow(f) && GoodFill(f, a) && a.size < f.arraySize
    ensures TypedValue(f, a.items[a.size]) && KeepableValue(f, a.items[a.size])
  {
  }

  lemma {:induction false} DecFieldSound(fields: seq<Field>, i: nat, wireType: nat, s: seq<byte>, c: Cursor)
    requires WellFormed(fields) && SoundTable(fields) && SoundCursor(fields, c) && i < |fields|
    requires fields[i].FixedCount() ==> c.fixedAt == i
    requires DecField(fields, i, wireType, s, c).Done?
    ensures SoundCursor(fields, DecField(fields, i, wireType, s, c).val)
    decreases |s|, 1
  {
    hide WellFormed, WellFormedField, Typed, TypedValue, GoodValue, SoundRow, DecValue, BaseValue, DecPacked,
         ReadDelimited, WithFill, WithValue, SoundTable, SoundCursor, GoodFill, Put;
    GoodCursor(fields, c);
    var f := fields[i];
    FieldOk(fields, c.slots, i);
    if f.htype.Repeated? && wireType == WT_STRING && Packable(f.ltype) {
      var a := FillAt(fields, i, c);
      FillAtSound(fields, i, c);
      PackedSound(f, ReadDelimited(s).val, a);
      FillSound(fields, i, c, DecPacked(f, ReadDelimited(s).val, a).val);
    } else {
      BaseSound(fields, i, c);
      DecValueSound(f, s, BaseValue(fields, i, c));
      var v := DecValue(f, s, BaseValue(fields, i, c)).val;
      if f.htype.Repeated? {
        FillAtSound(fields, i, c);
        PutGood(f, FillAt(fields, i, c), v);
        FillSound(fields, i, c, Put(f, FillAt(fields, i, c), v));
      } else {
        ValueSound(fields, i, c, v);
      }
    }
  }

  lemma GoodCursor(fields: seq<Field>, c: Cursor)
    requires WellFormed(fields) && SoundCursor(fields, c)
    ensures CursorOk(fields, c)
  {
  }

  lemma {:induction false} LoopSound(fields: seq<Field>, s: seq<byte>, c: Cursor)
    requires WellFormed(fields) && SoundTable(fields) && SoundCursor(fields, c)
    requires DecLoop(fields, s, c).Done?
    ensures SoundCursor(fields, DecLoop(fields, s, c).val.c)
    decreases |s|, 3
  {
    hide WellFormed, Typed, SoundTable, SoundMsg, Keepable, Varint32, DecRecord;
    if s != [] && Varint32(s).val != 0 {
      var key := Varint32(s);
      RecordSound(fields, key.val / 8, key.val % 8, key.rest, c);
      LoopSound(fields, DecRecord(fields, key.val / 8, key.val % 8, key.rest, c).rest,
                DecRecord(fields, key.val / 8, key.val % 8, key.rest, c).val);
    }
  }

  lemma {:induction false} RecordSound(fields: seq<Field>, tag: nat, wireType: nat, s: seq<byte>, c: Cursor)
    requires WellFormed(fields) && SoundTable(fields) && SoundCursor(fields, c)
    requires DecRecord(fields, tag, wireType, s, c).Done?
    ensures SoundCursor(fields, DecRecord(fields, tag, wireType, s, c).val)
    decreases |s|, 2
  {
    hide WellFormed, Typed, SoundTable, SoundMsg, Keepable, Varint32, DecField, Skip;
    var i := Lookup(fields, tag);
    if i < |fields| { DecFieldSound(fields, i, wireType, s, Enter(fields, i, c)); }
  }

  /** Decoding any bytes into a sound struct gives a sound struct. */
  lemma {:induction false} DecodeSound(fields: seq<Field>, s: seq<byte>, slots: seq<Slot>)
    requires WellFormed(fields) && Typed(fields, slots) && SoundTable(fields)
    requires SoundMsg(fields, slots) && Keepable(fields, slots)
    requires DecMsg(fields, s, slots).Done?
    ensures SoundMsg(fields, DecMsg(fields, s, slots).val) && Keepable(fields, DecMsg(fields, s, slots).val)
    decreases |s|, 4
  {
    hide WellFormed, Typed, SoundTable, SoundMsg, Keepable, DecLoop, Complete;
    LoopSound(fields, s, Start(slots));
  }

  // -------------------------------------------------- sound means sendable

  lemma {:induction false} SoundEncodable(fields: seq<Field>, slots: seq<Slot>)
    requires WellFormed(fields) && Typed(fields, slots) && SoundMsg(fields, slots)
    ensures Encodable(fields, slots) && RoomMsg(fields, slots)
    decreases fields, 1
  {
    hide WellFormed, Typed, SoundSlot, EncodableField, RoomField;
    forall i | 0 <= i < |fields| ensures EncodableField(fields, slots, i) && RoomField(fields, slots, i) {
      SoundFieldEncodable(fields, slots, i);
    }
  }

  lemma {:induction false} SoundFieldEncodable(fields: seq<Field>, slots: seq<Slot>, i: nat)
    requires WellFormed(fields) && Typed(fields, slots) && SoundMsg(fields, slots) && i < |fields|
    ensures EncodableField(fields, slots, i) && RoomField(fields, slots, i)
    decreases fields, 0
  {
    hide WellFormed, WellFormedField, Typed, TypedValue, SoundValue, EncodableValue, RoomValue, DefaultValueTest;
    FieldOk(fields, slots, i);
    var f, home := fields[i], Home(fields, i);
    FieldOk(fields, slots, home);
    assert SoundSlot(fields, home, slots[home]);
    if f.htype.Repeated? {
      var elems := Entries(slots[i]);
      assert SoundElems(f, elems);
      forall k | 0 <= k < |elems| ensures EncodableValue(f, elems[k]) && RoomValue(f, elems[k]) {
        SoundValueEncodable(f, elems[k]);
      }
    } else if Present(fields, slots, i) {
      if f.htype.Oneof? { SelectsMember(fields, i); FieldParts(f); }
      SoundValueEncodable(f, ValueOf(fields, slots, i));
    }
  }

  lemma {:induction false} SoundValueEncodable(f: Field, v: Value)
    requires WellFormedField(f) && TypedValue(f, v) && SoundValue(f, v)
    ensures EncodableValue(f, v) && RoomValue(f, v)
    decreases f, 0
  {
    if f.ltype.Submessage? { SoundEncodable(f.sub, v.slots); }
  }

  // ------------------------------------------------------------- lengths

  lemma {:induction false} ElemWithin(f: Field, elems: seq<Value>, k: nat)
    requires WellFormedField(f) && AllTyped(f, elems) && k < |elems|
    ensures |EncValue(f, elems[k])| <= |EncEntries(f, elems)|
    decreases k
  {
    hide WellFormedField, TypedValue, EncValue, EncTag;
    if k > 0 { ElemWithin(f, elems[1..], k - 1); }
  }

  lemma {:induction false} FieldWithin(fields: seq<Field>, slots: seq<Slot>, i: nat, j: nat)
    requires WellFormed(fields) && Typed(fields, slots) && i <= j < |fields|
    ensures |EncField(fields, slots, j)| <= |EncFrom(fields, slots, i)|
    decreases j - i
  {
    hide WellFormed, Typed, EncField;
    if i < j { FieldWithin(fields, slots, i + 1, j); }
  }

  /** A message shorter than 2^32 bytes has no longer lengths inside. */
  lemma {:induction false} ShortSendable(fields: seq<Field>, slots: seq<Slot>)
    requires WellFormed(fields) && Typed(fields, slots) && Encodable(fields, slots)
    requires |EncMsg(fields, slots)| < TWO_32
    ensures SendableMsg(fields, slots)
    decreases fields, 1
  {
    hide WellFormed, Typed, EncField, EncFrom, SendableField, EncodableField;
    forall i | 0 <= i < |fields| ensures SendableField(fields, slots, i) {
      FieldWithin(fields, slots, 0, i);
      ShortFieldSendable(fields, slots, i);
    }
  }

  lemma {:induction false} ShortFieldSendable(fields: seq<Field>, slots: seq<Slot>, i: nat)
    requires WellFormed(fields) && Typed(fields, slots) && i < |fields| && EncodableField(fields, slots, i)
    requires |EncField(fields, slots, i)| < TWO_32
    ensures SendableField(fields, slots, i)
    decreases fields, 0
  {
    hide WellFormed, WellFormedField, Typed, TypedValue, TypedSlot, EncValue, SendableValue, EncodableValue,
         EncPacked, EncEntries, EncVarint, Prefixed;
    FieldOk(fields, slots, i);
    var f := fields[i];
    if f.htype.Repeated? {
      var elems := Entries(SlotOf(fields, slots, i));
      if elems == [] { assert EncPacked(f, elems) == [] by { NothingPacked(f); } }
      forall k | 0 <= k < |elems| ensures SendableValue(f, elems[k]) {
        if !Packable(f.ltype) { ElemWithin(f, elems, k); }
        ShortValueSendable(f, elems[k]);
      }
    } else if Present(fields, slots, i) {
      ShortValueSendable(f, ValueOf(fields, slots, i));
    }
  }

  lemma NothingPacked(f: Field)
    requires WellFormedField(f)
    ensures EncPacked(f, []) == []
  {
  }

  lemma {:induction false} ShortValueSendable(f: Field, v: Value)
    requires WellFormedField(f) && TypedValue(f, v) && EncodableValue(f, v)
    requires Packable(f.ltype) || |EncValue(f, v)| < TWO_32
    ensures SendableValue(f, v)
    decreases f, 0
  {
    if f.ltype.Submessage? { ShortSendable(f.sub, v.slots); }
  }

  /** Whatever bytes were decoded, and whatever the struct held that setting the defaults overwrites, the
      result can be encoded, and decoding that again rebuilds its canonical form over any other struct. */
  lemma DecodedRoundTrips(fields: seq<Field>, s: seq<byte>, slots: seq<Slot>, prior: seq<Slot>)
    requires WellFormed(fields) && Typed(fields, slots) && Typed(fields, prior)
    requires SoundTable(fields) && Keepable(fields, slots)
    requires DecMsg(fields, s, Defaults(fields, slots)).Done?
    ensures var d := DecMsg(fields, s, Defaults(fields, slots)).val;
            && Encodable(fields, d)
            && (|EncMsg(fields, d)| < TWO_32 ==>
                  DecMsg(fields, EncMsg(fields, d), Defaults(fields, prior)) == Done(CanonMsg(fields, d, prior), []))
  {
    hide WellFormed, Typed, SoundTable, SoundMsg, Keepable, DecMsg, EncMsg, CanonMsg, Defaults, RoomMsg, Encodable,
         SendableMsg;
    DefaultsSound(fields, slots);
    DecodeSound(fields, s, Defaults(fields, slots));
    var d := DecMsg(fields, s, Defaults(fields, slots)).val;
    SoundEncodable(fields, d);
    if |EncMsg(fields, d)| < TWO_32 {
      ShortSendable(fields, d);
      MessageRoundTrip(fields, d, prior);
    }
  }

  /** For tables without fixed-count arrays the destination may hold anything. */
  lemma AnythingRoundTrips(fields: seq<Field>, s: seq<byte>, slots: seq<Slot>, prior: seq<Slot>)
    requires WellFormed(fields) && Typed(fields, slots) && Typed(fields, prior)
    requires SoundTable(fields) && NoFixedCounts(fields)
    requires DecMsg(fields, s, Defaults(fields, slots)).Done?
    ensures var d := DecMsg(fields, s, Defaults(fields, slots)).val;
            && Encodable(fields, d)
            && (|EncMsg(fields, d)| < TWO_32 ==>
                  DecMsg(fields, EncMsg(fields, d), Defaults(fields, prior)) == Done(CanonMsg(fields, d, prior), []))
  {
    hide WellFormed, Typed, SoundTable, Keepable, DecMsg, EncMsg, CanonMsg, Defaults, Encodable, NoFixedCounts;
    AlwaysKeepable(fields, slots);
    DecodedRoundTrips(fields, s, slots, prior);
  }
}
