/** The structs that a round trip gives back unchanged, described without the codec. */
module Fixpoints {
  import opened Wire
  import opened Descriptors
  import opened Encoding
  import opened Decoding
  import opened Canonical
  import opened RoundTrip
  import opened Fidelity
  import opened Scalars

  /** Nothing in the value would be lost: booleans are 0 or 1, and strings hold no zero and leave room for
      their terminator. */
  predicate SettledValue(f: Field, v: Value, prior: Value)
    requires WellFormedField(f) && TypedValue(f, v) && TypedValue(f, prior)
    decreases f, 0
  {
    if f.ltype.Submessage? then SettledMsg(f.sub, v.slots, prior.slots)
    else Normal(f, v) && (f.ltype.String? ==> |v.b| < f.dataSize)
  }

  predicate SettledElems(f: Field, elems: seq<Value>, items: seq<Value>)
    requires WellFormedField(f) && AllTyped(f, elems) && AllTyped(f, items) && |elems| <= |items|
    decreases f, 1
  {
    forall k | 0 <= k < |elems| :: SettledValue(f, elems[k], items[k])
  }

  /** What is not sent equals what the defaults make of the memory, in particular a zero without a flag the
      declared default, and what lies behind the count the old memory. */
  predicate SettledSlot(fields: seq<Field>, slots: seq<Slot>, prior: seq<Slot>, i: nat)
    requires WellFormed(fields) && Typed(fields, slots) && Typed(fields, prior) && i < |fields|
    decreases fields, 0
  {
    FieldOk(fields, slots, i);
    FieldOk(fields, prior, i);
    var f, slot, initial := fields[i], slots[i], Defaults(fields, prior)[i];
    match f.htype
    case Required => SettledValue(f, slot.v, prior[i].v)
    case Optional =>
      if f.sizeOffset != 0 then if slot.has then SettledValue(f, slot.v, prior[i].v) else slot == initial
      else if !f.ltype.Submessage? && NothingToSend(f, slot.v) then slot.v == f.dflt
      else SettledValue(f, slot.v, prior[i].v)
    case Repeated =>
      DefaultsAt(fields, prior, i);
      && slot.count <= f.arraySize
      && SettledElems(f, slot.items[..slot.count], initial.items)
      && slot.items[slot.count..] == initial.items[slot.count..]
    case Oneof =>
      if !Continues(fields, i) && Selects(fields, i, slot.which) then
        var member := fields[Lookup(fields, slot.which)];
        SettledValue(member, slot.u, ZeroValue(member))
      else slot == UNSET
  }

  predicate SettledMsg(fields: seq<Field>, slots: seq<Slot>, prior: seq<Slot>)
    requires WellFormed(fields) && Typed(fields, slots) && Typed(fields, prior)
    decreases fields, 1
  {
    forall i | 0 <= i < |fields| :: SettledSlot(fields, slots, prior, i)
  }

  // -------------------------------------------------------- room, slot by slot

  /** The strings that are sent from slot h have room. */
  predicate RoomAt(fields: seq<Field>, slots: seq<Slot>, h: nat)
    requires WellFormed(fields) && Typed(fields, slots) && h < |fields|
  {
    if !fields[h].htype.Oneof? then RoomField(fields, slots, h)
    else
      FieldOk(fields, slots, h);
      !Continues(fields, h) && Selects(fields, h, slots[h].which) ==>
        RoomValue(fields[Lookup(fields, slots[h].which)], slots[h].u)
  }

  lemma RoomSlotwise(fields: seq<Field>, slots: seq<Slot>)
    requires WellFormed(fields) && Typed(fields, slots)
    ensures RoomMsg(fields, slots) <==> forall h | 0 <= h < |fields| :: RoomAt(fields, slots, h)
  {
    hide WellFormed, Typed, TypedSlot, TypedValue, WellFormedField, RoomValue, AllRoom;
    if RoomMsg(fields, slots) {
      forall h | 0 <= h < |fields| ensures RoomAt(fields, slots, h) {
        FieldOk(fields, slots, h);
        if fields[h].htype.Oneof? && !Continues(fields, h) && Selects(fields, h, slots[h].which) {
          assert RoomField(fields, slots, Lookup(fields, slots[h].which));
        }
      }
    }
    if forall h | 0 <= h < |fields| :: RoomAt(fields, slots, h) {
      forall i | 0 <= i < |fields| ensures RoomField(fields, slots, i) {
        if fields[i].htype.Oneof? {
          SelectsMember(fields, i);
          assert RoomAt(fields, slots, Home(fields, i));
        } else {
          assert RoomAt(fields, slots, i);
        }
      }
    }
  }

  // ------------------------------------------------------ settled = unchanged

  lemma {:induction false} ValueSettled(f: Field, v: Value, prior: Value)
    requires WellFormedField(f) && TypedValue(f, v) && TypedValue(f, prior)
    ensures SettledValue(f, v, prior) <==> CanonValue(f, v, prior) == v && RoomValue(f, v)
    decreases f, 0
  {
    if f.ltype.Submessage? {
      MessageSettled(f.sub, v.slots, prior.slots);
    } else {
      NormalIsCanon(f, v, prior);
      if Normal(f, v) { RoomIs(f, v); }
    }
  }

  lemma {:induction false} ElemsSettled(f: Field, elems: seq<Value>, items: seq<Value>)
    requires WellFormedField(f) && AllTyped(f, elems) && AllTyped(f, items) && |elems| <= |items|
    ensures SettledElems(f, elems, items)
            <==> AllRoom(f, elems) && forall k | 0 <= k < |elems| :: CanonValue(f, elems[k], items[k]) == elems[k]
    decreases f, 1
  {
    hide TypedValue, WellFormedField, CanonValue, RoomValue, SettledValue;
    forall k | 0 <= k < |elems|
      ensures SettledValue(f, elems[k], items[k])
              <==> CanonValue(f, elems[k], items[k]) == elems[k] && RoomValue(f, elems[k])
    {
      ValueSettled(f, elems[k], items[k]);
    }
  }

  /** An array is rebuilt as it was when its entries are, and what lies behind them. */
  lemma ArrayUnchanged(f: Field, count: nat, mine: seq<Value>, items: seq<Value>)
    requires WellFormedField(f) && AllTyped(f, mine) && AllTyped(f, items) && count <= |mine| == |items|
    ensures Overwritten(f, items, 0, mine[..count]) == mine
            <==> && (forall k | 0 <= k < count :: CanonValue(f, mine[..count][k], items[k]) == mine[..count][k])
                 && mine[count..] == items[count..]
  {
    hide TypedValue, WellFormedField, CanonValue, Overwritten;
    var elems := mine[..count];
    var r := Overwritten(f, items, 0, elems);
    if r == mine {
      forall k | 0 <= k < count ensures CanonValue(f, elems[k], items[k]) == elems[k] {
        assert r[k] == mine[k];
      }
      forall k | 0 <= k < |mine| - count ensures mine[count..][k] == items[count..][k] {
        assert r[count + k] == mine[count + k];
      }
    }
    if (forall k | 0 <= k < count :: CanonValue(f, elems[k], items[k]) == elems[k]) && mine[count..] == items[count..] {
      forall k | 0 <= k < |mine| ensures r[k] == mine[k] {
        if k >= count { assert mine[count..][k - count] == items[count..][k - count]; }
      }
    }
  }

  lemma {:induction false} ArraySettled(fields: seq<Field>, slots: seq<Slot>, prior: seq<Slot>, i: nat)
    requires WellFormed(fields) && Typed(fields, slots) && Typed(fields, prior) && i < |fields| == |slots|
    requires fields[i].htype.Repeated?
    ensures SettledSlot(fields, slots, prior, i)
            <==> CanonSlot(fields, slots, prior, i) == slots[i] && RoomAt(fields, slots, i)
    decreases fields, 0, 0
  {
    hide Typed, WellFormed, WellFormedField, TypedValue, CanonValue, SettledElems, AllRoom, Overwritten, StoredOver;
    FieldOk(fields, slots, i);
    DefaultsAt(fields, prior, i);
    var f, slot, items := fields[i], slots[i], Defaults(fields, prior)[i].items;
    if slot.count <= f.arraySize {
      ElemsSettled(f, slot.items[..slot.count], items);
      ArrayUnchanged(f, slot.count, slot.items, items);
    }
  }

  /** A submessage that passes the default test sends no string. */
  lemma LeftOutHasRoom(fields: seq<Field>, slots: seq<Slot>)
    requires WellFormed(fields) && Typed(fields, slots) && DefaultTest(fields, slots)
    ensures RoomMsg(fields, slots)
  {
    hide Typed, WellFormed, WellFormedField, TypedValue, RoomValue, DefaultValueTest, DefaultFieldTest;
    forall i | 0 <= i < |fields| ensures RoomField(fields, slots, i) {
      assert DefaultFieldTest(fields, slots, i);
      DefaultFieldIsAbsent(fields, slots, i);
      FieldOk(fields, slots, i);
    }
  }

  lemma {:induction false} SingularSettled(fields: seq<Field>, slots: seq<Slot>, prior: seq<Slot>, i: nat)
    requires WellFormed(fields) && Typed(fields, slots) && Typed(fields, prior) && i < |fields| == |slots|
    requires fields[i].Singular() && !fields[i].ltype.Submessage?
    ensures SettledSlot(fields, slots, prior, i)
            <==> CanonSlot(fields, slots, prior, i) == slots[i] && RoomAt(fields, slots, i)
    decreases fields, 0, 0
  {
    hide Typed, WellFormed, CanonValue, RoomValue, SettledValue, DefaultValueTest;
    FieldOk(fields, slots, i);
    DefaultsAt(fields, prior, i);
    var f, v := fields[i], slots[i].v;
    ValueSettled(f, v, prior[i].v);
    NothingIsDefault(f, v);
  }

  lemma {:induction false} NestedSettled(fields: seq<Field>, slots: seq<Slot>, prior: seq<Slot>, i: nat)
    requires WellFormed(fields) && Typed(fields, slots) && Typed(fields, prior) && i < |fields| == |slots|
    requires fields[i].Singular() && fields[i].ltype.Submessage?
    ensures SettledSlot(fields, slots, prior, i)
            <==> CanonSlot(fields, slots, prior, i) == slots[i] && RoomAt(fields, slots, i)
    decreases fields, 0, 0
  {
    hide Typed, WellFormed, WellFormedField, DefaultTest, RoomMsg, SettledMsg, CanonMsg;
    FieldOk(fields, slots, i);
    DefaultsAt(fields, prior, i);
    var f, v := fields[i], slots[i].v;
    FieldParts(f);
    ValueSettled(f, v, prior[i].v);
    SingularSubmessage(fields, slots, prior, i);
    if DefaultTest(f.sub, v.slots) { LeftOutHasRoom(f.sub, v.slots); }
  }

  lemma {:induction false} FieldSettled(fields: seq<Field>, slots: seq<Slot>, prior: seq<Slot>, i: nat)
    requires WellFormed(fields) && Typed(fields, slots) && Typed(fields, prior) && i < |fields| == |slots|
    ensures SettledSlot(fields, slots, prior, i)
            <==> CanonSlot(fields, slots, prior, i) == slots[i] && RoomAt(fields, slots, i)
    decreases fields, 0, 1
  {
    hide Typed, WellFormed, WellFormedField, TypedValue, CanonValue, RoomValue, SettledValue, DefaultValueTest,
         StoredOver, ZeroValue;
    FieldOk(fields, slots, i);
    DefaultsAt(fields, prior, i);
    var f, slot := fields[i], slots[i];
    match f.htype
    case Required => ValueSettled(f, slot.v, prior[i].v);
    case Optional =>
      if !f.Singular() {
        ValueSettled(f, slot.v, prior[i].v);
      } else if f.ltype.Submessage? {
        NestedSettled(fields, slots, prior, i);
      } else {
        SingularSettled(fields, slots, prior, i);
      }
    case Repeated => ArraySettled(fields, slots, prior, i);
    case Oneof =>
      if !Continues(fields, i) && Selects(fields, i, slot.which) {
        var j := Lookup(fields, slot.which);
        FieldOk(fields, slots, j);
        ValueSettled(fields[j], slot.u, ZeroValue(fields[j]));
      }
  }

  lemma {:induction false} MessageSettled(fields: seq<Field>, slots: seq<Slot>, prior: seq<Slot>)
    requires WellFormed(fields) && Typed(fields, slots) && Typed(fields, prior)
    ensures SettledMsg(fields, slots, prior) <==> CanonMsg(fields, slots, prior) == slots && RoomMsg(fields, slots)
    decreases fields, 1
  {
    hide WellFormed, TypedSlot, CanonSlot, RoomMsg, RoomAt, SettledSlot;
    var canon := CanonMsg(fields, slots, prior);
    RoomSlotwise(fields, slots);
    forall i | 0 <= i < |fields|
      ensures SettledSlot(fields, slots, prior, i) <==> canon[i] == slots[i] && RoomAt(fields, slots, i)
    {
      FieldSettled(fields, slots, prior, i);
    }
  }

  /** Encoding a struct and decoding it over any memory gives back that very struct if and only if it is
      settled over that memory. */
  lemma UnchangedIffSettled(fields: seq<Field>, slots: seq<Slot>, prior: seq<Slot>)
    requires WellFormed(fields) && Typed(fields, slots) && Typed(fields, prior) && SendableMsg(fields, slots)
    ensures DecMsg(fields, EncMsg(fields, slots), Defaults(fields, prior)) == Done(slots, [])
            <==> SettledMsg(fields, slots, prior)
  {
    hide WellFormed, Typed, SendableMsg, RoomMsg, EncMsg, DecMsg, CanonMsg, SettledMsg, Defaults;
    MessageRoundTrip(fields, slots, prior);
    MessageSettled(fields, slots, prior);
  }

  // ---------------------------------------------------------- zero defaults

  /** Scalars without a flag are declared without a default of their own, at every depth. */
  predicate ZeroDefaults(fields: seq<Field>)
    requires WellFormed(fields)
    decreases fields
  {
    forall i | 0 <= i < |fields| :: ZeroDefault(fields[i])
  }

  predicate ZeroDefault(f: Field)
    requires WellFormedField(f)
    decreases f
  {
    if f.ltype.Submessage? then ZeroDefaults(f.sub)
    else f.Singular() ==> f.dflt == ZeroValue(f)
  }

  lemma {:induction false} ZeroAgreesValue(f: Field, v: Value)
    requires WellFormedField(f) && TypedValue(f, v) && ZeroDefault(f)
    ensures AgreesValue(f, v)
    decreases f, 0
  {
    if f.ltype.Submessage? { ZeroAgrees(f.sub, v.slots); }
  }

  /** What is left out of such a struct is what the defaults put there. */
  lemma {:induction false} ZeroAgrees(fields: seq<Field>, slots: seq<Slot>)
    requires WellFormed(fields) && Typed(fields, slots) && ZeroDefaults(fields)
    ensures AgreesMsg(fields, slots)
    decreases fields, 1
  {
    hide WellFormed, Typed, WellFormedField, TypedValue, AgreesValue, ZeroDefault, CanonValue, DefaultValueTest;
    forall i | 0 <= i < |fields| ensures AgreesField(fields, slots, i) {
      FieldOk(fields, slots, i);
      assert ZeroDefault(fields[i]);
      ZeroAgreesField(fields, slots, i);
    }
  }

  lemma {:induction false} ZeroAgreesField(fields: seq<Field>, slots: seq<Slot>, i: nat)
    requires WellFormed(fields) && Typed(fields, slots) && ZeroDefaults(fields) && i < |fields|
    requires WellFormedField(fields[i]) && ZeroDefault(fields[i])
    ensures AgreesField(fields, slots, i)
    decreases fields, 0
  {
    hide WellFormed, Typed, WellFormedField, TypedValue, AgreesValue, ZeroDefault, CanonValue, DefaultValueTest;
    FieldOk(fields, slots, i);
    var f, slot := fields[i], SlotOf(fields, slots, i);
    match f.htype
    case Required => ZeroAgreesValue(f, slot.v);
    case Optional =>
      if f.Singular() && !f.ltype.Submessage? {
        if !Present(fields, slots, i) { ZeroLeftOut(f, slot.v); }
      } else {
        ZeroAgreesValue(f, slot.v);
      }
    case Repeated =>
      forall k | 0 <= k < |Entries(slot)| ensures AgreesValue(f, Entries(slot)[k]) {
        ZeroAgreesValue(f, Entries(slot)[k]);
      }
    case Oneof =>
      if !Continues(fields, i) && Selects(fields, i, slot.which) {
        var j := Lookup(fields, slot.which);
        FieldOk(fields, slots, j);
        assert ZeroDefault(fields[j]);
        ZeroAgreesValue(fields[j], slot.u);
      }
  }

  lemma ZeroLeftOut(f: Field, v: Value)
    requires WellFormedField(f) && !f.ltype.Submessage? && TypedValue(f, v) && ZeroDefault(f) && f.Singular()
    requires DefaultValueTest(f, v)
    ensures f.dflt == CanonValue(f, v, v)
  {
    if f.ltype.FixedLengthBytes? { assert v.b == Zeros(f.dataSize); }
  }

  /** Without defaults of their own every value survives, exactly when the strings sent have room. */
  lemma ZeroDefaultsKeepAll(fields: seq<Field>, slots: seq<Slot>, prior: seq<Slot>)
    requires WellFormed(fields) && Typed(fields, slots) && Typed(fields, prior) && SendableMsg(fields, slots)
    requires ZeroDefaults(fields)
    ensures DecMsg(fields, EncMsg(fields, slots), Defaults(fields, prior)) == Done(KeptMsg(fields, slots, prior), [])
            <==> RoomMsg(fields, slots)
  {
    hide WellFormed, Typed, SendableMsg, RoomMsg, EncMsg, DecMsg, KeptMsg, AgreesMsg, ZeroDefaults, Defaults;
    ZeroAgrees(fields, slots);
    RoundTripExactly(fields, slots, prior);
  }

  /** A nonzero default of a scalar without a flag keeps every struct with a zero there from coming back. */
  lemma OwnDefaultReplacesZero(fields: seq<Field>, slots: seq<Slot>, prior: seq<Slot>, i: nat)
    requires WellFormed(fields) && Typed(fields, slots) && Typed(fields, prior) && i < |fields| == |slots|
    requires fields[i].Singular() && Packable(fields[i].ltype) && fields[i].dflt != Int(0)
    requires SendableMsg(fields, slots) && slots[i] == One(true, Int(0))
    ensures DecMsg(fields, EncMsg(fields, slots), Defaults(fields, prior)) != Done(slots, [])
  {
    hide WellFormed, Typed, SendableMsg, EncMsg, DecMsg, Defaults;
    FieldOk(fields, slots, i);
    UnchangedIffSettled(fields, slots, prior);
    assert !SettledSlot(fields, slots, prior, i);
  }
}
