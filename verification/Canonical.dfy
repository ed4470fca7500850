/** The struct a decoder rebuilds from an encoded one, over whatever its memory held before. */
module Canonical {
  import opened Bits
  import opened Descriptors
  import opened Encoding

  /** Booleans become 0 or 1, strings are cut at their terminator, and a nested struct is rebuilt
      over what its memory held. */
  function CanonValue(f: Field, v: Value, prior: Value): (r: Value)
    requires WellFormedField(f) && TypedValue(f, v) && TypedValue(f, prior)
    ensures TypedValue(f, r)
    decreases f, 0
  {
    match f.ltype
    case Bool => Int(if v.n != 0 then 1 else 0)
    case String => Blob(CStr(v.b))
    case Submessage => Msg(CanonMsg(f.sub, v.slots, prior.slots))
    case _ => v
  }

  /** Entries rebuilt one by one over the memory of an array from position at on. */
  function CanonElems(f: Field, elems: seq<Value>, items: seq<Value>, at: nat): (r: seq<Value>)
    requires WellFormedField(f) && AllTyped(f, elems) && AllTyped(f, items) && at + |elems| <= |items|
    ensures |r| == |elems| && AllTyped(f, r)
    decreases f, 1
  {
    seq(|elems|, k requires 0 <= k < |elems| => CanonValue(f, elems[k], items[at + k]))
  }

  /** The memory of an array with rebuilt entries from position at on, and no others touched. */
  function Overwritten(f: Field, items: seq<Value>, at: nat, elems: seq<Value>): (r: seq<Value>)
    requires WellFormedField(f) && AllTyped(f, elems) && AllTyped(f, items) && at + |elems| <= |items|
    ensures |r| == |items| && AllTyped(f, r)
    ensures forall k | 0 <= k < |items| :: r[k] ==
              if at <= k < at + |elems| then CanonValue(f, elems[k - at], items[k]) else items[k]
    decreases f, 2
  {
    var r := items[..at] + CanonElems(f, elems, items, at) + items[at + |elems|..];
    assert forall k | 0 <= k < |items| :: TypedValue(f, items[k]);
    r
  }

  /** What was sent, and the defaults over the old memory for what was not. */
  function CanonSlot(fields: seq<Field>, slots: seq<Slot>, prior: seq<Slot>, i: nat): (slot: Slot)
    requires WellFormed(fields) && Typed(fields, slots) && Typed(fields, prior) && i < |fields|
    ensures TypedSlot(fields, i, slot)
    decreases fields, 0
  {
    var f, slot := fields[i], SlotOf(fields, slots, i);
    assert TypedSlot(fields, i, prior[i]) && WellFormedField(f);
    var initial := DefaultSlot(fields, i, prior[i]);
    match f.htype
    case Required => One(true, CanonValue(f, slot.v, prior[i].v))
    case Optional => if Present(fields, slots, i) then One(true, CanonValue(f, slot.v, prior[i].v)) else initial
    case Repeated =>
      var elems := Entries(slot);
      Many(if f.FixedCount() then f.arraySize else |elems|, Overwritten(f, initial.items, 0, elems))
    case Oneof =>
      if !Continues(fields, i) && Selects(fields, i, slot.which)
      then
        var member := fields[Lookup(fields, slot.which)];
        Union(slot.which, CanonValue(member, slot.u, ZeroValue(member)))
      else UNSET
  }

  function CanonMsg(fields: seq<Field>, slots: seq<Slot>, prior: seq<Slot>): (r: seq<Slot>)
    requires WellFormed(fields) && Typed(fields, slots) && Typed(fields, prior)
    ensures Typed(fields, r)
    decreases fields, 1
  {
    seq(|fields|, i requires 0 <= i < |fields| => CanonSlot(fields, slots, prior, i))
  }

  // -------------------------------------------- what can be sent and read back

  /** The encoder has nothing to complain about, and nested lengths fit the 32 bits of the wire. */
  predicate SendableValue(f: Field, v: Value)
    requires WellFormedField(f) && TypedValue(f, v)
    decreases f, 0
  {
    if f.ltype.Submessage? then SendableMsg(f.sub, v.slots) && |EncMsg(f.sub, v.slots)| < TWO_32
    else EncodableValue(f, v)
  }

  predicate AllSendable(f: Field, elems: seq<Value>)
    requires WellFormedField(f) && AllTyped(f, elems)
    decreases f, 1
  {
    forall k | 0 <= k < |elems| :: SendableValue(f, elems[k])
  }

  predicate SendableField(fields: seq<Field>, slots: seq<Slot>, i: nat)
    requires WellFormed(fields) && Typed(fields, slots) && i < |fields|
    decreases fields, 0
  {
    var f, slot := fields[i], SlotOf(fields, slots, i);
    if f.htype.Repeated? then
      && slot.count <= f.arraySize
      && AllSendable(f, Entries(slot))
      && (Packable(f.ltype) ==> |EncPacked(f, Entries(slot))| < TWO_32)
    else Present(fields, slots, i) ==> SendableValue(f, ValueOf(fields, slots, i))
  }

  predicate SendableMsg(fields: seq<Field>, slots: seq<Slot>)
    requires WellFormed(fields) && Typed(fields, slots)
    decreases fields, 1
  {
    forall i | 0 <= i < |fields| :: SendableField(fields, slots, i)
  }

  /** Every string that is sent leaves room for its terminator, at every depth. */
  predicate RoomValue(f: Field, v: Value)
    requires WellFormedField(f) && TypedValue(f, v)
    decreases f, 0
  {
    match f.ltype
    case String => |CStr(v.b)| < f.dataSize
    case Submessage => RoomMsg(f.sub, v.slots)
    case _ => true
  }

  predicate AllRoom(f: Field, elems: seq<Value>)
    requires WellFormedField(f) && AllTyped(f, elems)
    decreases f, 1
  {
    forall k | 0 <= k < |elems| :: RoomValue(f, elems[k])
  }

  predicate RoomField(fields: seq<Field>, slots: seq<Slot>, i: nat)
    requires WellFormed(fields) && Typed(fields, slots) && i < |fields|
    decreases fields, 0
  {
    var f := fields[i];
    if f.htype.Repeated? then AllRoom(f, Entries(SlotOf(fields, slots, i)))
    else Present(fields, slots, i) ==> RoomValue(f, ValueOf(fields, slots, i))
  }

  predicate RoomMsg(fields: seq<Field>, slots: seq<Slot>)
    requires WellFormed(fields) && Typed(fields, slots)
    decreases fields, 1
  {
    forall i | 0 <= i < |fields| :: RoomField(fields, slots, i)
  }

  // ------------------------------------------------- absent means the default

  lemma AbsentSlotIsDefault(fields: seq<Field>, slots: seq<Slot>, prior: seq<Slot>, i: nat)
    requires WellFormed(fields) && Typed(fields, slots) && Typed(fields, prior) && i < |fields|
    requires !Present(fields, slots, i) && !fields[i].htype.Oneof?
    ensures CanonSlot(fields, slots, prior, i) == DefaultSlot(fields, i, prior[i])
  {
    hide Typed, WellFormed, TypedValue, WellFormedField, CanonValue, DefaultValueTest;
    FieldOk(fields, prior, i);
    if fields[i].htype.Repeated? {
      var items := DefaultSlot(fields, i, prior[i]).items;
      assert Overwritten(fields[i], items, 0, []) == items;
    }
  }

  /** A struct all of whose fields pass the default test is rebuilt as the defaults: leaving it out
      loses nothing but the scalars' own defaults. */
  lemma DefaultTestCanon(fields: seq<Field>, slots: seq<Slot>, prior: seq<Slot>)
    requires WellFormed(fields) && Typed(fields, slots) && Typed(fields, prior) && DefaultTest(fields, slots)
    ensures CanonMsg(fields, slots, prior) == Defaults(fields, prior)
  {
    hide TypedSlot, WellFormedField, TypedValue, CanonSlot, DefaultSlot, DefaultFieldTest, Present;
    forall i | 0 <= i < |fields| ensures CanonSlot(fields, slots, prior, i) == DefaultSlot(fields, i, prior[i]) {
      DefaultFieldCanon(fields, slots, prior, i);
    }
  }

  lemma DefaultFieldCanon(fields: seq<Field>, slots: seq<Slot>, prior: seq<Slot>, i: nat)
    requires WellFormed(fields) && Typed(fields, slots) && Typed(fields, prior) && i < |fields|
    requires DefaultFieldTest(fields, slots, i)
    ensures CanonSlot(fields, slots, prior, i) == DefaultSlot(fields, i, prior[i])
  {
    hide Typed, WellFormed, TypedValue, CanonValue, DefaultValueTest, Overwritten, DefaultValue, StoredOver;
    FieldOk(fields, prior, i);
    if !fields[i].htype.Oneof? { AbsentSlotIsDefault(fields, slots, prior, i); }
  }
}
