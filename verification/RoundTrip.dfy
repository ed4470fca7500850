/** Decoding what was encoded rebuilds the canonical struct, over any descriptor tree and whatever the
    struct held before. */
module RoundTrip {
  import opened Bits
  import opened Wire
  import opened Descriptors
  import opened Encoding
  import opened Decoding
  import opened Canonical
  import opened Arrays

  // ------------------------------------------- the decoder halfway through

  /** Slot h is final once the fields before i have been decoded. */
  predicate Settled(fields: seq<Field>, slots: seq<Slot>, h: nat, i: nat)
    requires WellFormed(fields) && Typed(fields, slots) && h < |fields|
  {
    if fields[h].htype.Oneof? then
      var which := SlotOf(fields, slots, h).which;
      !Continues(fields, h) && Selects(fields, h, which) && Lookup(fields, which) < i
    else h < i
  }

  function PartialSlot(fields: seq<Field>, slots: seq<Slot>, prior: seq<Slot>, h: nat, i: nat): (slot: Slot)
    requires WellFormed(fields) && Typed(fields, slots) && Typed(fields, prior) && h < |fields|
    ensures TypedSlot(fields, h, slot)
  {
    FieldOk(fields, prior, h);
    if Settled(fields, slots, h, i) then CanonSlot(fields, slots, prior, h) else DefaultSlot(fields, h, prior[h])
  }

  /** The struct after decoding fields 0..i from the defaults. */
  function Partial(fields: seq<Field>, slots: seq<Slot>, prior: seq<Slot>, i: nat): (r: seq<Slot>)
    requires WellFormed(fields) && Typed(fields, slots) && Typed(fields, prior)
    ensures Typed(fields, r)
  {
    seq(|fields|, h requires 0 <= h < |fields| => PartialSlot(fields, slots, prior, h, i))
  }

  function RequiredUpTo(fields: seq<Field>, i: nat): set<nat>
    requires i <= |fields|
  {
    set j: nat | j < i && fields[j].htype.Required?
  }

  /** The last fixed-count array before i that has entries, or -1. */
  function LastFixed(fields: seq<Field>, i: nat): (j: int)
    requires i <= |fields|
    ensures -1 <= j < i
    ensures j >= 0 ==> fields[j].FixedCount()
  {
    if i == 0 then -1
    else if fields[i - 1].FixedCount() && fields[i - 1].arraySize > 0 then i - 1
    else LastFixed(fields, i - 1)
  }

  function CursorAt(fields: seq<Field>, slots: seq<Slot>, prior: seq<Slot>, i: nat): (c: Cursor)
    requires WellFormed(fields) && Typed(fields, slots) && Typed(fields, prior) && i <= |fields|
    ensures CursorOk(fields, c) && FixedFull(fields, c) && c.slots == Partial(fields, slots, prior, i)
  {
    var j := LastFixed(fields, i);
    Cursor(Partial(fields, slots, prior, i), RequiredUpTo(fields, i), j, if j == -1 then 0 else fields[j].arraySize)
  }

  lemma PartialEnds(fields: seq<Field>, slots: seq<Slot>, prior: seq<Slot>)
    requires WellFormed(fields) && Typed(fields, slots) && Typed(fields, prior)
    ensures Partial(fields, slots, prior, 0) == Defaults(fields, prior)
    ensures Partial(fields, slots, prior, |fields|) == CanonMsg(fields, slots, prior)
  {
    hide Typed, WellFormed, TypedSlot, TypedValue, WellFormedField, CanonValue, Overwritten, DefaultValue,
         StoredOver;
    forall h | 0 <= h < |fields|
      ensures PartialSlot(fields, slots, prior, h, |fields|) == CanonSlot(fields, slots, prior, h)
    {
      FieldOk(fields, prior, h);
    }
    assert Partial(fields, slots, prior, |fields|) == CanonMsg(fields, slots, prior);
    assert Partial(fields, slots, prior, 0) == Defaults(fields, prior);
  }

  // --------------------------------------------------------- absent fields

  lemma AbsentKeepsPartial(fields: seq<Field>, slots: seq<Slot>, prior: seq<Slot>, i: nat)
    requires WellFormed(fields) && Typed(fields, slots) && Typed(fields, prior)
    requires i < |fields| && !Present(fields, slots, i)
    ensures Partial(fields, slots, prior, i + 1) == Partial(fields, slots, prior, i)
  {
    hide Typed, WellFormed, TypedSlot, TypedValue, WellFormedField, CanonSlot, DefaultSlot, DefaultValueTest;
    forall h | 0 <= h < |fields|
      ensures PartialSlot(fields, slots, prior, h, i + 1) == PartialSlot(fields, slots, prior, h, i)
    {
      if h == i && !fields[h].htype.Oneof? { AbsentSlotIsDefault(fields, slots, prior, i); }
    }
  }

  lemma AbsentKeepsCursor(fields: seq<Field>, slots: seq<Slot>, prior: seq<Slot>, i: nat)
    requires WellFormed(fields) && Typed(fields, slots) && Typed(fields, prior)
    requires i < |fields| && SendsNothing(fields, slots, i) && SendableField(fields, slots, i)
    ensures CursorAt(fields, slots, prior, i + 1) == CursorAt(fields, slots, prior, i)
  {
    hide Typed, WellFormed, TypedSlot, TypedValue, WellFormedField, DefaultValueTest, Partial, AllSendable,
         EncPacked;
    if Present(fields, slots, i) {
      NoMemoryKeepsPartial(fields, slots, prior, i);
    } else {
      AbsentKeepsPartial(fields, slots, prior, i);
    }
    assert RequiredUpTo(fields, i + 1) == RequiredUpTo(fields, i);
  }

  /** A fixed-count array without entries has one value only. */
  lemma NoMemoryKeepsPartial(fields: seq<Field>, slots: seq<Slot>, prior: seq<Slot>, i: nat)
    requires WellFormed(fields) && Typed(fields, slots) && Typed(fields, prior) && i < |fields|
    requires fields[i].htype.Repeated? && fields[i].arraySize == 0 && SlotOf(fields, slots, i).count == 0
    ensures Partial(fields, slots, prior, i + 1) == Partial(fields, slots, prior, i)
  {
    AbsentKeepsPartial(fields, slots, prior, i);
  }

  // -------------------------------------------------------- present fields

  /** What the item of a present field is decoded over. */
  function PriorOf(fields: seq<Field>, prior: seq<Slot>, i: nat): (v: Value)
    requires WellFormed(fields) && Typed(fields, prior) && i < |fields| && !fields[i].htype.Repeated?
    requires WellFormedField(fields[i])
    ensures TypedValue(fields[i], v)
  {
    if fields[i].htype.Oneof? then ZeroValue(fields[i]) else SlotOf(fields, prior, i).v
  }

  lemma PresentPartial(fields: seq<Field>, slots: seq<Slot>, prior: seq<Slot>, i: nat)
    requires WellFormed(fields) && Typed(fields, slots) && Typed(fields, prior) && i < |fields|
    requires WellFormedField(fields[i]) && !fields[i].htype.Repeated? && Present(fields, slots, i)
    ensures var v := CanonValue(fields[i], ValueOf(fields, slots, i), PriorOf(fields, prior, i));
            Partial(fields, slots, prior, i + 1)
            == Partial(fields, slots, prior, i)[Home(fields, i) := Stored(fields[i], v)]
  {
    hide Typed, WellFormed, WellFormedField, TypedValue, CanonValue, DefaultValueTest, DefaultSlot, ZeroValue;
    var f, before, after := fields[i], Partial(fields, slots, prior, i), Partial(fields, slots, prior, i + 1);
    SelectsMember(fields, i);
    var v := CanonValue(f, ValueOf(fields, slots, i), PriorOf(fields, prior, i));
    forall h | 0 <= h < |fields| && h != Home(fields, i)
      ensures PartialSlot(fields, slots, prior, h, i + 1) == PartialSlot(fields, slots, prior, h, i)
    {
    }
    assert PartialSlot(fields, slots, prior, Home(fields, i), i + 1) == Stored(f, v);
    assert after == before[Home(fields, i) := Stored(f, v)];
  }

  /** A present singular field or union member is stored as its canonical slot. */
  lemma PresentStores(fields: seq<Field>, slots: seq<Slot>, prior: seq<Slot>, i: nat)
    requires WellFormed(fields) && Typed(fields, slots) && Typed(fields, prior) && i < |fields|
    requires WellFormedField(fields[i]) && !fields[i].htype.Repeated? && Present(fields, slots, i)
    ensures var v := CanonValue(fields[i], ValueOf(fields, slots, i), PriorOf(fields, prior, i));
            WithValue(fields, i, Enter(fields, i, CursorAt(fields, slots, prior, i)), v)
            == CursorAt(fields, slots, prior, i + 1)
  {
    hide Typed, WellFormed, WellFormedField, TypedSlot, TypedValue, CanonValue, DefaultValueTest, Partial, Present,
         ValueOf, PriorOf, Home;
    PresentPartial(fields, slots, prior, i);
    assert RequiredUpTo(fields, i + 1)
        == RequiredUpTo(fields, i) + (if fields[i].htype.Required? then {i} else {});
  }

  lemma BaseIsDefault(fields: seq<Field>, slots: seq<Slot>, prior: seq<Slot>, i: nat)
    requires WellFormed(fields) && Typed(fields, slots) && Typed(fields, prior) && i < |fields|
    requires WellFormedField(fields[i]) && !fields[i].htype.Repeated?
    ensures BaseValue(fields, i, Enter(fields, i, CursorAt(fields, slots, prior, i)))
            == DefaultValue(fields[i], PriorOf(fields, prior, i))
  {
    hide Typed, WellFormed, WellFormedField, TypedValue, CanonValue, DefaultValue, ZeroValue, LastFixed,
         RequiredUpTo;
    FieldOk(fields, prior, i);
  }

  lemma ArrayPartial(fields: seq<Field>, slots: seq<Slot>, prior: seq<Slot>, i: nat)
    requires WellFormed(fields) && Typed(fields, slots) && Typed(fields, prior) && i < |fields|
    requires WellFormedField(fields[i]) && TypedSlot(fields, i, prior[i]) && fields[i].htype.Repeated?
    ensures Partial(fields, slots, prior, i)[i] == DefaultSlot(fields, i, prior[i])
    ensures Partial(fields, slots, prior, i + 1)
            == Partial(fields, slots, prior, i)[i := CanonSlot(fields, slots, prior, i)]
  {
    hide Typed, WellFormed, WellFormedField, TypedSlot, TypedValue, CanonSlot, DefaultSlot, DefaultValueTest;
    forall h | 0 <= h < |fields| && h != i
      ensures PartialSlot(fields, slots, prior, h, i + 1) == PartialSlot(fields, slots, prior, h, i)
    {
    }
  }

  /** An array is entered at its start, over its memory after the defaults were stored. */
  lemma EntersAtStart(fields: seq<Field>, slots: seq<Slot>, prior: seq<Slot>, i: nat)
    requires WellFormed(fields) && Typed(fields, slots) && Typed(fields, prior) && i < |fields|
    requires WellFormedField(fields[i]) && TypedSlot(fields, i, prior[i]) && fields[i].htype.Repeated?
    ensures var c := CursorAt(fields, slots, prior, i);
            && MayEnter(fields, i, c)
            && FillAt(fields, i, Enter(fields, i, c)) == Fill(DefaultSlot(fields, i, prior[i]).items, 0)
            && Enter(fields, i, c).seen == RequiredUpTo(fields, i)
            && Enter(fields, i, c).fixedAt == (if fields[i].FixedCount() then i else c.fixedAt)
            && Enter(fields, i, c).fixedCount == (if fields[i].FixedCount() then 0 else c.fixedCount)
  {
    hide Typed, WellFormed, WellFormedField, TypedValue, Partial, StoredOver, RequiredUpTo;
    ArrayPartial(fields, slots, prior, i);
  }

  lemma ArrayCanon(fields: seq<Field>, slots: seq<Slot>, prior: seq<Slot>, i: nat)
    requires WellFormed(fields) && Typed(fields, slots) && Typed(fields, prior) && i < |fields|
    requires WellFormedField(fields[i]) && TypedSlot(fields, i, prior[i]) && fields[i].htype.Repeated?
    ensures var elems := Entries(SlotOf(fields, slots, i));
            CanonSlot(fields, slots, prior, i)
            == Many(if fields[i].FixedCount() then fields[i].arraySize else |elems|,
                    Overwritten(fields[i], DefaultSlot(fields, i, prior[i]).items, 0, elems))
  {
    hide Typed, WellFormed, WellFormedField, TypedValue, Overwritten, StoredOver;
  }

  /** A nonempty array leaves its canonical slot, and becomes the last fixed-count array if it is one. */
  lemma PresentAppends(fields: seq<Field>, slots: seq<Slot>, prior: seq<Slot>, i: nat)
    requires WellFormed(fields) && Typed(fields, slots) && Typed(fields, prior) && i < |fields|
    requires WellFormedField(fields[i]) && fields[i].htype.Repeated?
    requires Entries(SlotOf(fields, slots, i)) != [] && SlotOf(fields, slots, i).count <= fields[i].arraySize
    ensures var c, elems := CursorAt(fields, slots, prior, i), Entries(SlotOf(fields, slots, i));
            && MayEnter(fields, i, c) && NextIndex(fields, i, c) == 0
            && Appended(fields, i, c, elems) == CursorAt(fields, slots, prior, i + 1)
  {
    hide Typed, WellFormed, WellFormedField, TypedValue, TypedSlot, Partial, Overwritten, DefaultSlot, CanonSlot,
         Enter, FillAt, RequiredUpTo;
    FieldOk(fields, prior, i);
    EntersAtStart(fields, slots, prior, i);
    ArrayCanon(fields, slots, prior, i);
    ArrayPartial(fields, slots, prior, i);
    SameRequired(fields, i);
  }

  lemma SameRequired(fields: seq<Field>, i: nat)
    requires i < |fields| && !fields[i].htype.Required?
    ensures RequiredUpTo(fields, i + 1) == RequiredUpTo(fields, i)
  {
  }

  // ------------------------------------------------------ field by field

  /** Everything field i would send is read back if it has room. */
  ghost predicate FieldDecodes(fields: seq<Field>, slots: seq<Slot>, i: nat)
    requires WellFormed(fields) && Typed(fields, slots) && i < |fields| && WellFormedField(fields[i])
  {
    if fields[i].htype.Repeated? then AllDecode(fields[i], Entries(SlotOf(fields, slots, i)))
    else Present(fields, slots, i) ==> Decodes(fields[i], ValueOf(fields, slots, i))
  }

  /** The records the encoder writes for an array. */
  function ArrayChunks(f: Field, elems: seq<Value>): seq<Chunk> {
    if Packable(f.ltype) then [Packed(elems)]
    else seq(|elems|, k requires 0 <= k < |elems| => Single(elems[k]))
  }

  lemma EntryChunksOk(f: Field, elems: seq<Value>)
    requires WellFormedField(f) && AllTyped(f, elems) && AllDecode(f, elems) && !Packable(f.ltype)
    ensures ChunksOk(f, ArrayChunks(f, elems))
  {
    hide TypedValue, WellFormedField, EncValue, Decodes;
    var chunks := ArrayChunks(f, elems);
    forall k | 0 <= k < |chunks| ensures ChunkOk(f, chunks[k]) {
      assert Decodes(f, elems[k]);
    }
  }

  lemma {:induction false} EntriesAreChunks(f: Field, elems: seq<Value>)
    requires WellFormedField(f) && AllTyped(f, elems) && !Packable(f.ltype)
    requires ChunksOk(f, ArrayChunks(f, elems))
    ensures EncChunks(f, ArrayChunks(f, elems)) == EncEntries(f, elems) && Flatten(ArrayChunks(f, elems)) == elems
    decreases |elems|
  {
    hide TypedValue, WellFormedField, EncValue, AllDecode, EncTag;
    var chunks := ArrayChunks(f, elems);
    if elems != [] {
      assert chunks[1..] == ArrayChunks(f, elems[1..]);
      EntriesAreChunks(f, elems[1..]);
      assert chunks[0] == Single(elems[0]);
    }
  }

  lemma ArrayIsChunks(f: Field, elems: seq<Value>)
    requires WellFormedField(f) && AllTyped(f, elems) && AllDecode(f, elems) && elems != []
    requires Packable(f.ltype) ==> |EncPacked(f, elems)| < TWO_32
    ensures var chunks := ArrayChunks(f, elems);
            && chunks != [] && ChunksOk(f, chunks)
            && EncChunks(f, chunks) == EncArray(f, elems) && Flatten(chunks) == elems
  {
    hide TypedValue, WellFormedField, EncValue, EncPacked, Delimited, EncVarint;
    if Packable(f.ltype) {
      var ch := Packed(elems);
      assert ChunkOk(f, ch);
      assert [ch][1..] == [];
    } else {
      EntryChunksOk(f, elems);
      EntriesAreChunks(f, elems);
    }
  }

  /** The records of field i take the decoder from the state before it to the state after it, exactly
      when no string in them lacks room. */
  lemma FieldRoundTrip(fields: seq<Field>, slots: seq<Slot>, prior: seq<Slot>, i: nat, t: seq<byte>)
    requires WellFormed(fields) && Typed(fields, slots) && Typed(fields, prior) && i < |fields|
    requires WellFormedField(fields[i])
    requires SendableField(fields, slots, i) && FieldDecodes(fields, slots, i)
    ensures DecLoop(fields, EncField(fields, slots, i) + t, CursorAt(fields, slots, prior, i))
            == if RoomField(fields, slots, i) then DecLoop(fields, t, CursorAt(fields, slots, prior, i + 1)) else Fail
  {
    hide Typed, TypedSlot, TypedValue, WellFormed, WellFormedField, DecLoop, CursorAt, Appended, MayEnter, EncValue,
         NextIndex, WithValue, DecValue, EncArray, AllSendable, AllRoom, Entries;
    if SendsNothing(fields, slots, i) {
      AbsentKeepsCursor(fields, slots, prior, i);
      EncFieldEmpty(fields, slots, i);
      assert [] + t == t;
      NothingHasRoom(fields, slots, i);
    } else if fields[i].htype.Repeated? {
      ArrayRoundTrip(fields, slots, prior, i, t);
    } else {
      SingleRoundTrip(fields, slots, prior, i, t);
    }
  }

  lemma NothingHasRoom(fields: seq<Field>, slots: seq<Slot>, i: nat)
    requires WellFormed(fields) && Typed(fields, slots) && i < |fields| && SendsNothing(fields, slots, i)
    ensures RoomField(fields, slots, i)
  {
  }

  lemma ArrayRoundTrip(fields: seq<Field>, slots: seq<Slot>, prior: seq<Slot>, i: nat, t: seq<byte>)
    requires WellFormed(fields) && Typed(fields, slots) && Typed(fields, prior) && i < |fields|
    requires WellFormedField(fields[i]) && fields[i].htype.Repeated? && !SendsNothing(fields, slots, i)
    requires SendableField(fields, slots, i) && FieldDecodes(fields, slots, i)
    ensures DecLoop(fields, EncField(fields, slots, i) + t, CursorAt(fields, slots, prior, i))
            == if RoomField(fields, slots, i) then DecLoop(fields, t, CursorAt(fields, slots, prior, i + 1)) else Fail
  {
    hide Typed, TypedSlot, TypedValue, WellFormed, WellFormedField, DecLoop, CursorAt, Appended, MayEnter, EncValue,
         NextIndex, EncArray, AllSendable, AllRoom;
    var elems := Entries(SlotOf(fields, slots, i));
    ArrayIsChunks(fields[i], elems);
    PresentAppends(fields, slots, prior, i);
    ChunksDecode(fields, i, ArrayChunks(fields[i], elems), t, CursorAt(fields, slots, prior, i));
  }

  lemma SingleRoundTrip(fields: seq<Field>, slots: seq<Slot>, prior: seq<Slot>, i: nat, t: seq<byte>)
    requires WellFormed(fields) && Typed(fields, slots) && Typed(fields, prior) && i < |fields|
    requires WellFormedField(fields[i]) && !fields[i].htype.Repeated? && Present(fields, slots, i)
    requires Decodes(fields[i], ValueOf(fields, slots, i))
    ensures DecLoop(fields, EncField(fields, slots, i) + t, CursorAt(fields, slots, prior, i))
            == if RoomField(fields, slots, i) then DecLoop(fields, t, CursorAt(fields, slots, prior, i + 1)) else Fail
  {
    hide Typed, TypedSlot, TypedValue, WellFormed, WellFormedField, CanonValue, DecLoop, CursorAt, Enter, RoomValue,
         WithValue, EncValue, DecValue, BaseValue, EncVarint, Present, DefaultValue, PriorOf;
    var f, c, v := fields[i], CursorAt(fields, slots, prior, i), ValueOf(fields, slots, i);
    assert EncField(fields, slots, i) + t == EncVarint(f.tag * 8 + WireTypeOf(f.ltype)) + (EncValue(f, v) + t);
    LoopOnField(fields, i, WireTypeOf(f.ltype), EncValue(f, v) + t, c);
    BaseIsDefault(fields, slots, prior, i);
    PresentStores(fields, slots, prior, i);
    var before := PriorOf(fields, prior, i);
    assert DecValue(f, EncValue(f, v) + t, DefaultValue(f, before))
        == if RoomValue(f, v) then Done(CanonValue(f, v, before), t) else Fail;
  }

  ghost predicate AllFieldsDecode(fields: seq<Field>, slots: seq<Slot>)
    requires WellFormed(fields) && Typed(fields, slots)
  {
    forall i | 0 <= i < |fields| :: WellFormedField(fields[i]) && FieldDecodes(fields, slots, i)
  }

  predicate RoomFrom(fields: seq<Field>, slots: seq<Slot>, i: nat)
    requires WellFormed(fields) && Typed(fields, slots)
  {
    forall j | i <= j < |fields| :: RoomField(fields, slots, j)
  }

  /** All fields from i on, in front of any other bytes. */
  lemma {:induction false} FieldsRoundTrip(fields: seq<Field>, slots: seq<Slot>, prior: seq<Slot>, i: nat, t: seq<byte>)
    requires WellFormed(fields) && Typed(fields, slots) && Typed(fields, prior) && i <= |fields|
    requires SendableMsg(fields, slots) && AllFieldsDecode(fields, slots)
    ensures DecLoop(fields, EncFrom(fields, slots, i) + t, CursorAt(fields, slots, prior, i))
            == if RoomFrom(fields, slots, i) then DecLoop(fields, t, CursorAt(fields, slots, prior, |fields|)) else Fail
    decreases |fields| - i
  {
    hide Typed, WellFormed, DecLoop, CursorAt, EncField, SendableField, FieldDecodes, RoomField;
    if i == |fields| {
      assert EncFrom(fields, slots, i) + t == t;
    } else {
      var rest := EncFrom(fields, slots, i + 1) + t;
      assert EncFrom(fields, slots, i) + t == EncField(fields, slots, i) + rest;
      FieldRoundTrip(fields, slots, prior, i, rest);
      FieldsRoundTrip(fields, slots, prior, i + 1, t);
      assert RoomFrom(fields, slots, i) <==> RoomField(fields, slots, i) && RoomFrom(fields, slots, i + 1);
    }
  }

  // -------------------------------------------------- over the whole tree

  lemma {:induction false} ValueRoundTrip(f: Field, v: Value)
    requires WellFormedField(f) && TypedValue(f, v) && SendableValue(f, v)
    ensures Decodes(f, v)
    decreases f, 0
  {
    hide Typed, WellFormed, EncMsg, DecMsg, Defaults, CanonMsg, SendableMsg, RoomMsg, DecScalar, ReadDelimited,
         EncVarint;
    forall t: seq<byte>, prior | TypedValue(f, prior)
      ensures DecValue(f, EncValue(f, v) + t, DefaultValue(f, prior))
           == if RoomValue(f, v) then Done(CanonValue(f, v, prior), t) else Fail
    {
      if f.ltype.Submessage? {
        MessageRoundTrip(f.sub, v.slots, prior.slots);
        DelimitedRoundTrip(EncMsg(f.sub, v.slots), t);
      } else {
        ScalarRoundTrip(f, v, prior, t);
      }
    }
  }

  lemma {:induction false} AllFieldsRoundTrip(fields: seq<Field>, slots: seq<Slot>)
    requires WellFormed(fields) && Typed(fields, slots) && SendableMsg(fields, slots)
    ensures AllFieldsDecode(fields, slots)
    decreases fields, 0
  {
    hide Typed, TypedSlot, WellFormed, TypedValue, WellFormedField, EncPacked, SendableValue, Decodes, Present;
    forall i | 0 <= i < |fields| ensures WellFormedField(fields[i]) && FieldDecodes(fields, slots, i) {
      var f := fields[i];
      FieldOk(fields, slots, i);
      assert SendableField(fields, slots, i);
      if f.htype.Repeated? {
        var elems := Entries(SlotOf(fields, slots, i));
        assert AllSendable(f, elems);
        forall k | 0 <= k < |elems| ensures Decodes(f, elems[k]) {
          assert TypedValue(f, elems[k]) && SendableValue(f, elems[k]);
          ValueRoundTrip(f, elems[k]);
        }
      } else if Present(fields, slots, i) {
        ValueRoundTrip(f, ValueOf(fields, slots, i));
      }
    }
  }

  /** The encoding of a struct, in front of any other bytes, brings a decoder that started from the
      defaults to the canonical struct with every required field seen. */
  lemma {:induction false} MessageThen(fields: seq<Field>, slots: seq<Slot>, prior: seq<Slot>, t: seq<byte>)
    requires WellFormed(fields) && Typed(fields, slots) && Typed(fields, prior) && SendableMsg(fields, slots)
    ensures DecLoop(fields, EncMsg(fields, slots) + t, Start(Defaults(fields, prior)))
            == if RoomMsg(fields, slots) then DecLoop(fields, t, CursorAt(fields, slots, prior, |fields|)) else Fail
    ensures Complete(fields, CursorAt(fields, slots, prior, |fields|))
    ensures CursorAt(fields, slots, prior, |fields|).slots == CanonMsg(fields, slots, prior)
    decreases fields, 1
  {
    hide Typed, WellFormed, FieldDecodes, RoomField, EncFrom, Partial, CanonMsg, Defaults, SendableMsg,
         AllFieldsDecode;
    AllFieldsRoundTrip(fields, slots);
    FieldsRoundTrip(fields, slots, prior, 0, t);
    PartialEnds(fields, slots, prior);
    assert RequiredUpTo(fields, 0) == {};
    assert CursorAt(fields, slots, prior, 0) == Start(Defaults(fields, prior));
  }

  /** Decoding the encoding of a struct into any other struct consumes it all and rebuilds the
      canonical struct, exactly when every string that was sent has room for its terminator. */
  lemma {:induction false} MessageRoundTrip(fields: seq<Field>, slots: seq<Slot>, prior: seq<Slot>)
    requires WellFormed(fields) && Typed(fields, slots) && Typed(fields, prior) && SendableMsg(fields, slots)
    ensures DecMsg(fields, EncMsg(fields, slots), Defaults(fields, prior))
            == if RoomMsg(fields, slots) then Done(CanonMsg(fields, slots, prior), []) else Fail
    decreases fields, 2
  {
    hide Typed, WellFormed, SendableMsg, RoomMsg, CursorAt, Complete, EncMsg, Defaults, CanonMsg;
    MessageThen(fields, slots, prior, []);
    assert EncMsg(fields, slots) + [] == EncMsg(fields, slots);
  }

  /** A null-terminated message decodes identically whatever bytes follow it. */
  lemma NullTerminatedRoundTrip(fields: seq<Field>, slots: seq<Slot>, prior: seq<Slot>, t: seq<byte>)
    requires WellFormed(fields) && Typed(fields, slots) && Typed(fields, prior) && SendableMsg(fields, slots)
    ensures DecMsg(fields, EncMsg(fields, slots) + [0] + t, Defaults(fields, prior))
            == if RoomMsg(fields, slots) then Done(CanonMsg(fields, slots, prior), t) else Fail
  {
    hide Typed, WellFormed, SendableMsg, RoomMsg, CursorAt, Complete, EncMsg, Defaults, CanonMsg;
    var z := [0] + t;
    MessageThen(fields, slots, prior, z);
    assert EncMsg(fields, slots) + [0] + t == EncMsg(fields, slots) + z;
    assert z[1..] == t;
  }
}
