/** How much of a struct survives a round trip. */
module Fidelity {
  import opened Bits
  import opened Wire
  import opened Descriptors
  import opened Encoding
  import opened Decoding
  import opened Canonical
  import opened RoundTrip

  // --------------------------------------------- nothing but what was not sent

  /** The struct with every value kept that is flagged or has no flag, whether it is sent or not. */
  function KeptValue(f: Field, v: Value, prior: Value): (r: Value)
    requires WellFormedField(f) && TypedValue(f, v) && TypedValue(f, prior)
    decreases f, 0
  {
    if f.ltype.Submessage? then Msg(KeptMsg(f.sub, v.slots, prior.slots)) else CanonValue(f, v, prior)
  }

  function KeptElems(f: Field, items: seq<Value>, elems: seq<Value>): (r: seq<Value>)
    requires WellFormedField(f) && AllTyped(f, elems) && AllTyped(f, items) && |elems| <= |items|
    decreases f, 1
  {
    seq(|items|, k requires 0 <= k < |items| =>
      if k < |elems| then KeptValue(f, elems[k], items[k]) else items[k])
  }

  function KeptSlot(fields: seq<Field>, slots: seq<Slot>, prior: seq<Slot>, i: nat): (slot: Slot)
    requires WellFormed(fields) && Typed(fields, slots) && Typed(fields, prior) && i < |fields|
    decreases fields, 0
  {
    var f, slot := fields[i], SlotOf(fields, slots, i);
    assert TypedSlot(fields, i, prior[i]) && WellFormedField(f);
    var initial := DefaultSlot(fields, i, prior[i]);
    match f.htype
    case Required => One(true, KeptValue(f, slot.v, prior[i].v))
    case Optional => if slot.has then One(true, KeptValue(f, slot.v, prior[i].v)) else initial
    case Repeated =>
      Many(if f.FixedCount() then f.arraySize else |Entries(slot)|, KeptElems(f, initial.items, Entries(slot)))
    case Oneof =>
      if !Continues(fields, i) && Selects(fields, i, slot.which)
      then
        var member := fields[Lookup(fields, slot.which)];
        Union(slot.which, KeptValue(member, slot.u, ZeroValue(member)))
      else UNSET
  }

  function KeptMsg(fields: seq<Field>, slots: seq<Slot>, prior: seq<Slot>): (r: seq<Slot>)
    requires WellFormed(fields) && Typed(fields, slots) && Typed(fields, prior)
    ensures |r| == |fields|
    decreases fields, 1
  {
    seq(|fields|, i requires 0 <= i < |fields| => KeptSlot(fields, slots, prior, i))
  }

  /** Every flagless scalar that is left out equals the default that replaces it, at every depth. */
  predicate AgreesValue(f: Field, v: Value)
    requires WellFormedField(f) && TypedValue(f, v)
    decreases f, 0
  {
    f.ltype.Submessage? ==> AgreesMsg(f.sub, v.slots)
  }

  predicate AgreesElems(f: Field, elems: seq<Value>)
    requires WellFormedField(f) && AllTyped(f, elems)
    decreases f, 1
  {
    forall k | 0 <= k < |elems| :: AgreesValue(f, elems[k])
  }

  predicate AgreesField(fields: seq<Field>, slots: seq<Slot>, i: nat)
    requires WellFormed(fields) && Typed(fields, slots) && i < |fields|
    decreases fields, 0
  {
    var f, slot := fields[i], SlotOf(fields, slots, i);
    match f.htype
    case Required => AgreesValue(f, slot.v)
    case Optional =>
      if !f.Singular() then slot.has ==> AgreesValue(f, slot.v)
      else if f.ltype.Submessage? then AgreesValue(f, slot.v)
      else Present(fields, slots, i) || f.dflt == CanonValue(f, slot.v, slot.v)
    case Repeated => AgreesElems(f, Entries(slot))
    case Oneof =>
      !Continues(fields, i) && Selects(fields, i, slot.which) ==>
        AgreesValue(fields[Lookup(fields, slot.which)], slot.u)
  }

  predicate AgreesMsg(fields: seq<Field>, slots: seq<Slot>)
    requires WellFormed(fields) && Typed(fields, slots)
    decreases fields, 1
  {
    forall i | 0 <= i < |fields| :: AgreesField(fields, slots, i)
  }

  /** Leaving out a flagless submessage changes nothing in how it is rebuilt. */
  lemma SingularSubmessage(fields: seq<Field>, slots: seq<Slot>, prior: seq<Slot>, i: nat)
    requires WellFormed(fields) && Typed(fields, slots) && Typed(fields, prior) && i < |fields|
    requires WellFormedField(fields[i]) && fields[i].Singular() && fields[i].ltype.Submessage?
    requires |prior| == |fields| && TypedSlot(fields, i, prior[i])
    ensures CanonSlot(fields, slots, prior, i)
            == One(true, CanonValue(fields[i], SlotOf(fields, slots, i).v, prior[i].v))
  {
    hide Typed, WellFormed, WellFormedField, CanonMsg, DefaultTest, Defaults;
    var f, v := fields[i], SlotOf(fields, slots, i).v;
    FieldParts(f);
    if !Present(fields, slots, i) {
      DefaultTestCanon(f.sub, v.slots, prior[i].v.slots);
      assert DefaultValue(f, prior[i].v) == CanonValue(f, v, prior[i].v);
      assert CanonSlot(fields, slots, prior, i) == DefaultSlot(fields, i, prior[i]);
    }
  }

  lemma {:induction false} ValueKept(f: Field, v: Value, prior: Value)
    requires WellFormedField(f) && TypedValue(f, v) && TypedValue(f, prior)
    ensures CanonValue(f, v, prior) == KeptValue(f, v, prior) <==> AgreesValue(f, v)
    decreases f, 0
  {
    if f.ltype.Submessage? { MessageKept(f.sub, v.slots, prior.slots); }
  }

  lemma {:induction false} ElemsKept(f: Field, items: seq<Value>, elems: seq<Value>)
    requires WellFormedField(f) && AllTyped(f, elems) && AllTyped(f, items) && |elems| <= |items|
    ensures Overwritten(f, items, 0, elems) == KeptElems(f, items, elems) <==> AgreesElems(f, elems)
    decreases f, 1
  {
    hide WellFormedField, TypedValue, CanonValue, KeptValue, AgreesValue, Overwritten;
    var x, y := Overwritten(f, items, 0, elems), KeptElems(f, items, elems);
    forall k | 0 <= k < |items| ensures x[k] == y[k] <==> (k < |elems| ==> AgreesValue(f, elems[k])) {
      if k < |elems| { ValueKept(f, elems[k], items[k]); }
    }
    if AgreesElems(f, elems) {
      assert x == y;
    } else {
      var k :| 0 <= k < |elems| && !AgreesValue(f, elems[k]);
      assert x[k] != y[k];
    }
  }

  lemma {:induction false} FieldKept(fields: seq<Field>, slots: seq<Slot>, prior: seq<Slot>, i: nat)
    requires WellFormed(fields) && Typed(fields, slots) && Typed(fields, prior) && i < |fields|
    ensures CanonSlot(fields, slots, prior, i) == KeptSlot(fields, slots, prior, i) <==> AgreesField(fields, slots, i)
    decreases fields, 0
  {
    hide Typed, WellFormed, WellFormedField, TypedValue, CanonValue, KeptValue, AgreesValue, Overwritten, KeptElems,
         AgreesElems, DefaultValueTest, ZeroValue, StoredOver;
    FieldOk(fields, prior, i);
    var f, slot := fields[i], SlotOf(fields, slots, i);
    match f.htype
    case Required => ValueKept(f, slot.v, prior[i].v);
    case Optional =>
      if f.Singular() && f.ltype.Submessage? {
        SingularSubmessage(fields, slots, prior, i);
        ValueKept(f, slot.v, prior[i].v);
      } else if f.Singular() {
        SingularScalar(fields, slots, prior, i);
      } else {
        ValueKept(f, slot.v, prior[i].v);
      }
    case Repeated => ElemsKept(f, DefaultSlot(fields, i, prior[i]).items, Entries(slot));
    case Oneof =>
      if !Continues(fields, i) && Selects(fields, i, slot.which) {
        var j := Lookup(fields, slot.which);
        FieldOk(fields, prior, j);
        ValueKept(fields[j], slot.u, ZeroValue(fields[j]));
      }
  }

  lemma SingularScalar(fields: seq<Field>, slots: seq<Slot>, prior: seq<Slot>, i: nat)
    requires WellFormed(fields) && Typed(fields, slots) && Typed(fields, prior) && i < |fields|
    requires fields[i].Singular() && !fields[i].ltype.Submessage?
    ensures CanonSlot(fields, slots, prior, i) == KeptSlot(fields, slots, prior, i) <==> AgreesField(fields, slots, i)
  {
    hide Typed, WellFormed, WellFormedField, TypedValue, DefaultValueTest;
    FieldOk(fields, prior, i);
    var f, v := fields[i], SlotOf(fields, slots, i).v;
    assert DefaultSlot(fields, i, prior[i]) == One(true, f.dflt);
    assert KeptValue(f, v, prior[i].v) == CanonValue(f, v, prior[i].v) == CanonValue(f, v, v);
  }

  lemma {:induction false} MessageKept(fields: seq<Field>, slots: seq<Slot>, prior: seq<Slot>)
    requires WellFormed(fields) && Typed(fields, slots) && Typed(fields, prior)
    ensures CanonMsg(fields, slots, prior) == KeptMsg(fields, slots, prior) <==> AgreesMsg(fields, slots)
    decreases fields, 1
  {
    hide Typed, WellFormed, CanonSlot, KeptSlot, AgreesField;
    var x, y := CanonMsg(fields, slots, prior), KeptMsg(fields, slots, prior);
    forall i | 0 <= i < |fields| ensures x[i] == y[i] <==> AgreesField(fields, slots, i) {
      FieldKept(fields, slots, prior, i);
    }
    if x == y {
      forall i | 0 <= i < |fields| ensures AgreesField(fields, slots, i) {
        assert x[i] == y[i];
      }
    }
  }

  /** The round trip keeps every value, exactly when every string sent has room for its terminator and
      every flagless scalar left out equals its default, at every depth. */
  lemma RoundTripExactly(fields: seq<Field>, slots: seq<Slot>, prior: seq<Slot>)
    requires WellFormed(fields) && Typed(fields, slots) && Typed(fields, prior) && SendableMsg(fields, slots)
    ensures DecMsg(fields, EncMsg(fields, slots), Defaults(fields, prior)) == Done(KeptMsg(fields, slots, prior), [])
            <==> RoomMsg(fields, slots) && AgreesMsg(fields, slots)
  {
    hide Typed, WellFormed, SendableMsg, RoomMsg, AgreesMsg, EncMsg, DecMsg, CanonMsg, KeptMsg, Defaults;
    MessageRoundTrip(fields, slots, prior);
    MessageKept(fields, slots, prior);
  }

  // ---------------------------------------------------------- idempotence

  /** Flagless scalars have canonical defaults, at every depth. */
  predicate CanonicalDefaults(fields: seq<Field>)
    requires WellFormed(fields)
    decreases fields
  {
    forall i | 0 <= i < |fields| :: CanonicalDefault(fields[i])
  }

  predicate CanonicalDefault(f: Field)
    requires WellFormedField(f)
    decreases f
  {
    if f.ltype.Submessage? then CanonicalDefaults(f.sub)
    else f.Singular() ==> f.dflt == CanonValue(f, f.dflt, f.dflt)
  }

  lemma {:induction false} CStrTwice(b: seq<byte>)
    ensures CStr(CStr(b)) == CStr(b)
  {
    if b != [] && b[0] != 0 { CStrTwice(b[1..]); }
  }

  lemma {:induction false} CanonValueTwice(f: Field, v: Value, prior: Value)
    requires WellFormedField(f) && TypedValue(f, v) && TypedValue(f, prior) && CanonicalDefault(f)
    ensures var c := CanonValue(f, v, prior); CanonValue(f, c, prior) == c
    decreases f, 0
  {
    if f.ltype.String? {
      CStrTwice(v.b);
    } else if f.ltype.Submessage? {
      CanonTwice(f.sub, v.slots, prior.slots);
    }
  }

  lemma {:induction false} CanonElemsTwice(f: Field, items: seq<Value>, elems: seq<Value>)
    requires WellFormedField(f) && AllTyped(f, elems) && AllTyped(f, items) && |elems| <= |items| && CanonicalDefault(f)
    ensures var c := Overwritten(f, items, 0, elems);
            AllTyped(f, c[..|elems|]) && Overwritten(f, items, 0, c[..|elems|]) == c
    decreases f, 1
  {
    hide WellFormedField, TypedValue, CanonValue, Overwritten, CanonicalDefault;
    var c := Overwritten(f, items, 0, elems);
    var again := Overwritten(f, items, 0, c[..|elems|]);
    forall k | 0 <= k < |items| ensures again[k] == c[k] {
      if k < |elems| { CanonValueTwice(f, elems[k], items[k]); }
    }
  }

  lemma {:induction false} CanonSlotTwice(fields: seq<Field>, slots: seq<Slot>, prior: seq<Slot>, i: nat)
    requires WellFormed(fields) && Typed(fields, slots) && Typed(fields, prior) && i < |fields|
    requires CanonicalDefaults(fields)
    ensures CanonSlot(fields, CanonMsg(fields, slots, prior), prior, i) == CanonSlot(fields, slots, prior, i)
    decreases fields, 0
  {
    hide Typed, WellFormed, WellFormedField, TypedValue, CanonValue, Overwritten, DefaultValueTest, ZeroValue,
         StoredOver, CanonicalDefault, DefaultValue;
    FieldOk(fields, prior, i);
    var f, slot, canon := fields[i], SlotOf(fields, slots, i), CanonMsg(fields, slots, prior);
    assert CanonicalDefault(f);
    match f.htype
    case Required => CanonValueTwice(f, slot.v, prior[i].v);
    case Optional =>
      if f.Singular() && f.ltype.Submessage? {
        SingularSubmessage(fields, slots, prior, i);
        SingularSubmessage(fields, canon, prior, i);
        CanonValueTwice(f, slot.v, prior[i].v);
      } else if f.Singular() {
        SingularScalarTwice(fields, slots, prior, i);
      } else {
        CanonValueTwice(f, slot.v, prior[i].v);
      }
    case Repeated => CanonElemsTwice(f, DefaultSlot(fields, i, prior[i]).items, Entries(slot));
    case Oneof =>
      if !Continues(fields, i) && Selects(fields, i, slot.which) {
        var j := Lookup(fields, slot.which);
        FieldOk(fields, prior, j);
        assert CanonicalDefault(fields[j]);
        CanonValueTwice(fields[j], slot.u, ZeroValue(fields[j]));
      }
  }

  lemma SingularScalarTwice(fields: seq<Field>, slots: seq<Slot>, prior: seq<Slot>, i: nat)
    requires WellFormed(fields) && Typed(fields, slots) && Typed(fields, prior) && i < |fields|
    requires CanonicalDefaults(fields) && fields[i].Singular() && !fields[i].ltype.Submessage?
    ensures CanonSlot(fields, CanonMsg(fields, slots, prior), prior, i) == CanonSlot(fields, slots, prior, i)
  {
    hide Typed, WellFormed, WellFormedField, TypedValue, CanonValue, DefaultValueTest;
    FieldOk(fields, prior, i);
    var f, v := fields[i], SlotOf(fields, slots, i).v;
    assert CanonicalDefault(f);
    FieldParts(f);
    ScalarTwice(f, v, prior[i].v);
    assert DefaultSlot(fields, i, prior[i]) == One(true, f.dflt);
  }

  lemma ScalarTwice(f: Field, v: Value, prior: Value)
    requires WellFormedField(f) && TypedValue(f, v) && TypedValue(f, prior) && !f.ltype.Submessage?
    requires TypedValue(f, f.dflt)
    ensures var c := CanonValue(f, v, prior);
            CanonValue(f, c, prior) == c && (DefaultValueTest(f, c) <==> DefaultValueTest(f, v))
    ensures CanonValue(f, f.dflt, prior) == CanonValue(f, f.dflt, f.dflt)
  {
    if f.ltype.String? { CStrTwice(v.b); }
  }

  /** Rebuilding a rebuilt struct changes nothing: the canonical structs are those it leaves alone. */
  lemma {:induction false} CanonTwice(fields: seq<Field>, slots: seq<Slot>, prior: seq<Slot>)
    requires WellFormed(fields) && Typed(fields, slots) && Typed(fields, prior) && CanonicalDefaults(fields)
    ensures var c := CanonMsg(fields, slots, prior); CanonMsg(fields, c, prior) == c
    decreases fields, 1
  {
    hide Typed, WellFormed, CanonSlot, CanonicalDefaults;
    forall i | 0 <= i < |fields|
      ensures CanonSlot(fields, CanonMsg(fields, slots, prior), prior, i) == CanonSlot(fields, slots, prior, i)
    {
      CanonSlotTwice(fields, slots, prior, i);
    }
  }
}
