/** When what the decoder rebuilds stands for the same bytes. */
module Reencoding {
  import opened Bits
  import opened Wire
  import opened Descriptors
  import opened Encoding
  import opened Decoding
  import opened Canonical
  import opened Arrays
  import opened RoundTrip
  import opened Fidelity

  // --------------------------------------------- the default test when rebuilt

  /** Whether the rebuilt struct passes the default test: a selector that names no member is gone, and a
      scalar left out has become its default. */
  predicate RebuiltPasses(fields: seq<Field>, slots: seq<Slot>)
    requires WellFormed(fields) && Typed(fields, slots)
    decreases fields, 1
  {
    forall i | 0 <= i < |fields| :: RebuiltFieldPasses(fields, slots, i)
  }

  predicate RebuiltFieldPasses(fields: seq<Field>, slots: seq<Slot>, i: nat)
    requires WellFormed(fields) && Typed(fields, slots) && i < |fields|
    decreases fields, 0
  {
    var f, slot := fields[i], SlotOf(fields, slots, i);
    assert WellFormedField(f);
    match f.htype
    case Required => false
    case Repeated => !f.FixedCount() && Entries(slot) == []
    case Oneof => !Selects(fields, Home(fields, i), slot.which)
    case Optional =>
      if !f.Singular() then !slot.has
      else if f.ltype.Submessage? then RebuiltPasses(f.sub, slot.v.slots)
      else DefaultValueTest(f, slot.v) && DefaultValueTest(f, f.dflt)
  }

  lemma {:induction false} FieldPassesExactly(fields: seq<Field>, slots: seq<Slot>, prior: seq<Slot>, i: nat)
    requires WellFormed(fields) && Typed(fields, slots) && Typed(fields, prior) && i < |fields|
    ensures DefaultFieldTest(fields, CanonMsg(fields, slots, prior), i) <==> RebuiltFieldPasses(fields, slots, i)
    decreases fields, 0
  {
    hide WellFormed, WellFormedField, Typed, TypedValue, CanonValue, DefaultValueTest, Overwritten, StoredOver,
         ZeroValue;
    FieldOk(fields, prior, i);
    var f, slot := fields[i], SlotOf(fields, slots, i);
    match f.htype
    case Required =>
    case Optional =>
      if f.Singular() && f.ltype.Submessage? {
        SingularSubmessage(fields, slots, prior, i);
        SubPassesExactly(f, slot.v, prior[i].v);
      } else if f.Singular() {
        FieldParts(f);
        ScalarTwice(f, slot.v, prior[i].v);
        assert DefaultSlot(fields, i, prior[i]) == One(true, f.dflt);
      }
    case Repeated =>
    case Oneof =>
      var home := Home(fields, i);
      assert CanonMsg(fields, slots, prior)[home] == CanonSlot(fields, slots, prior, home);
  }

  lemma {:induction false} SubPassesExactly(f: Field, v: Value, prior: Value)
    requires WellFormedField(f) && TypedValue(f, v) && TypedValue(f, prior) && f.ltype.Submessage?
    ensures DefaultValueTest(f, CanonValue(f, v, prior)) <==> RebuiltPasses(f.sub, v.slots)
    decreases f, 0
  {
    PassesExactly(f.sub, v.slots, prior.slots);
  }

  lemma {:induction false} PassesExactly(fields: seq<Field>, slots: seq<Slot>, prior: seq<Slot>)
    requires WellFormed(fields) && Typed(fields, slots) && Typed(fields, prior)
    ensures DefaultTest(fields, CanonMsg(fields, slots, prior)) <==> RebuiltPasses(fields, slots)
    decreases fields, 1
  {
    hide WellFormed, Typed, CanonMsg, DefaultFieldTest, RebuiltFieldPasses;
    forall i | 0 <= i < |fields|
      ensures DefaultFieldTest(fields, CanonMsg(fields, slots, prior), i) <==> RebuiltFieldPasses(fields, slots, i)
    {
      FieldPassesExactly(fields, slots, prior, i);
    }
  }

  // ------------------------------------------------------ the exact condition

  /** Every flagless field is left out before exactly if it is left out after, at every depth that is
      sent. */
  predicate SameMsg(fields: seq<Field>, slots: seq<Slot>)
    requires WellFormed(fields) && Typed(fields, slots)
    decreases fields, 2
  {
    forall i | 0 <= i < |fields| :: SameField(fields, slots, i)
  }

  predicate SameField(fields: seq<Field>, slots: seq<Slot>, i: nat)
    requires WellFormed(fields) && Typed(fields, slots) && i < |fields|
    decreases fields, 1
  {
    var f, slot := fields[i], SlotOf(fields, slots, i);
    assert WellFormedField(f);
    match f.htype
    case Required => SameValue(f, slot.v)
    case Repeated => SameElems(f, Entries(slot))
    case Oneof => slot.which == f.tag ==> SameValue(f, ValueOf(fields, slots, i))
    case Optional =>
      if !f.Singular() then slot.has ==> SameValue(f, slot.v)
      else if f.ltype.Submessage? then
        && (DefaultTest(f.sub, slot.v.slots) <==> RebuiltPasses(f.sub, slot.v.slots))
        && (!DefaultTest(f.sub, slot.v.slots) ==> SameValue(f, slot.v))
      else DefaultValueTest(f, slot.v) ==> DefaultValueTest(f, f.dflt)
  }

  predicate SameElems(f: Field, elems: seq<Value>)
    requires WellFormedField(f) && AllTyped(f, elems)
    decreases f, 1
  {
    forall k | 0 <= k < |elems| :: SameValue(f, elems[k])
  }

  predicate SameValue(f: Field, v: Value)
    requires WellFormedField(f) && TypedValue(f, v)
    decreases f, 0
  {
    f.ltype.Submessage? ==> SameMsg(f.sub, v.slots)
  }

  // --------------------------------------------------------- it is sufficient

  lemma ScalarReencodes(f: Field, v: Value, prior: Value)
    requires WellFormedField(f) && TypedValue(f, v) && TypedValue(f, prior) && !f.ltype.Submessage?
    ensures EncValue(f, CanonValue(f, v, prior)) == EncValue(f, v)
  {
    if f.ltype.String? { CStrTwice(v.b); }
  }

  lemma {:induction false} ValueReencodes(f: Field, v: Value, prior: Value)
    requires WellFormedField(f) && TypedValue(f, v) && TypedValue(f, prior) && SameValue(f, v)
    ensures EncValue(f, CanonValue(f, v, prior)) == EncValue(f, v)
    decreases f, 0
  {
    if f.ltype.Submessage? {
      SameReencodes(f.sub, v.slots, prior.slots);
    } else {
      ScalarReencodes(f, v, prior);
    }
  }

  lemma {:induction false} ElemsReencode(f: Field, elems: seq<Value>, canon: seq<Value>)
    requires WellFormedField(f) && AllTyped(f, elems) && AllTyped(f, canon) && |canon| == |elems|
    requires forall k | 0 <= k < |elems| :: EncValue(f, canon[k]) == EncValue(f, elems[k])
    ensures EncPacked(f, canon) == EncPacked(f, elems) && EncEntries(f, canon) == EncEntries(f, elems)
    decreases |elems|
  {
    hide WellFormedField, TypedValue, EncValue, EncTag;
    if elems != [] { ElemsReencode(f, elems[1..], canon[1..]); }
  }

  /** The rebuilt entries of an array. */
  function RebuiltElems(f: Field, items: seq<Value>, elems: seq<Value>): (c: seq<Value>)
    requires WellFormedField(f) && AllTyped(f, elems) && AllTyped(f, items) && |elems| <= |items|
    ensures |c| == |elems| && AllTyped(f, c)
    ensures forall k | 0 <= k < |elems| :: c[k] == CanonValue(f, elems[k], items[k])
  {
    Overwritten(f, items, 0, elems)[..|elems|]
  }

  lemma {:induction false} ArrayReencodes(f: Field, items: seq<Value>, elems: seq<Value>)
    requires WellFormedField(f) && AllTyped(f, elems) && AllTyped(f, items) && |elems| <= |items|
    requires SameElems(f, elems)
    ensures EncArray(f, RebuiltElems(f, items, elems)) == EncArray(f, elems)
    decreases f, 1
  {
    hide SameValue, WellFormedField, TypedValue, EncValue, EncPacked, EncEntries, CanonValue, RebuiltElems;
    var c := RebuiltElems(f, items, elems);
    forall k | 0 <= k < |elems| ensures EncValue(f, c[k]) == EncValue(f, elems[k]) {
      ValueReencodes(f, elems[k], items[k]);
    }
    ElemsReencode(f, elems, c);
  }

  /** What the rebuilt struct sends of a field. */
  lemma RebuiltField(fields: seq<Field>, slots: seq<Slot>, prior: seq<Slot>, i: nat)
    requires WellFormed(fields) && Typed(fields, slots) && Typed(fields, prior) && i < |fields|
    requires WellFormedField(fields[i]) && |prior| == |fields| && TypedSlot(fields, i, prior[i])
    ensures var f, slot, canon := fields[i], SlotOf(fields, slots, i), CanonMsg(fields, slots, prior);
            && (f.htype.Repeated? ==>
                  EncField(fields, canon, i)
                  == EncArray(f, RebuiltElems(f, DefaultSlot(fields, i, prior[i]).items, Entries(slot))))
            && (!f.htype.Repeated? && !f.Singular() ==>
                  (Present(fields, canon, i) <==> Present(fields, slots, i)))
            && (f.Singular() ==> (Present(fields, canon, i) <==> !RebuiltFieldPasses(fields, slots, i)))
            && (!f.htype.Repeated? && Present(fields, slots, i) ==>
                  (Present(fields, canon, i) ==>
                     ValueOf(fields, canon, i) == CanonValue(f, ValueOf(fields, slots, i), PriorOf(fields, prior, i))))
  {
    hide WellFormed, WellFormedField, Typed, TypedValue, CanonValue, EncValue, EncArray, Overwritten, StoredOver,
         ZeroValue, DefaultValueTest, RebuiltFieldPasses, DefaultValue;
    var f, slot := fields[i], SlotOf(fields, slots, i);
    FieldParts(f);
    match f.htype
    case Required =>
    case Repeated =>
    case Optional => if f.Singular() { SingularPresence(fields, slots, prior, i); }
    case Oneof => MemberPresence(fields, slots, prior, i);
  }

  lemma SingularPresence(fields: seq<Field>, slots: seq<Slot>, prior: seq<Slot>, i: nat)
    requires WellFormed(fields) && Typed(fields, slots) && Typed(fields, prior) && i < |fields| && fields[i].Singular()
    ensures var canon := CanonMsg(fields, slots, prior);
            && (Present(fields, canon, i) <==> !RebuiltFieldPasses(fields, slots, i))
  {
    hide WellFormed, Typed, CanonMsg, RebuiltFieldPasses, TypedSlot, DefaultValueTest;
    FieldPassesExactly(fields, slots, prior, i);
  }

  lemma MemberPresence(fields: seq<Field>, slots: seq<Slot>, prior: seq<Slot>, i: nat)
    requires WellFormed(fields) && Typed(fields, slots) && Typed(fields, prior) && i < |fields|
    requires WellFormedField(fields[i]) && fields[i].htype.Oneof?
    ensures var canon := CanonMsg(fields, slots, prior);
            && (Present(fields, canon, i) <==> Present(fields, slots, i))
            && (Present(fields, slots, i) ==>
                  ValueOf(fields, canon, i)
                  == CanonValue(fields[i], ValueOf(fields, slots, i), PriorOf(fields, prior, i)))
  {
    hide WellFormed, WellFormedField, Typed, TypedValue, CanonValue, ZeroValue;
    FieldParts(fields[i]);
    var home, slot, canon := Home(fields, i), SlotOf(fields, slots, i), CanonMsg(fields, slots, prior);
    assert canon[home] == CanonSlot(fields, slots, prior, home);
    if slot.which == fields[i].tag { SelectsMember(fields, i); }
  }

  lemma {:induction false} FieldReencodes(fields: seq<Field>, slots: seq<Slot>, prior: seq<Slot>, i: nat)
    requires WellFormed(fields) && Typed(fields, slots) && Typed(fields, prior) && i < |fields|
    requires SameField(fields, slots, i)
    ensures EncField(fields, CanonMsg(fields, slots, prior), i) == EncField(fields, slots, i)
    decreases fields, 0
  {
    hide WellFormed, WellFormedField, Typed, TypedValue, CanonValue, EncValue, EncTag, DefaultValueTest, SameValue,
         SameElems, EncArray, StoredOver, DefaultValue, ZeroValue, CanonMsg, RebuiltElems, RebuiltPasses,
         DefaultTest;
    FieldOk(fields, prior, i);
    var f, slot := fields[i], SlotOf(fields, slots, i);
    RebuiltField(fields, slots, prior, i);
    if f.htype.Repeated? {
      ArrayReencodes(f, DefaultSlot(fields, i, prior[i]).items, Entries(slot));
    } else if Present(fields, slots, i) && Present(fields, CanonMsg(fields, slots, prior), i) {
      if !(f.Singular() && !f.ltype.Submessage?) {
        PresentSame(fields, slots, i);
        ValueReencodes(f, ValueOf(fields, slots, i), PriorOf(fields, prior, i));
      } else {
        ScalarReencodes(f, ValueOf(fields, slots, i), PriorOf(fields, prior, i));
      }
    } else {
      SameAbsence(fields, slots, prior, i);
    }
  }

  lemma PresentSame(fields: seq<Field>, slots: seq<Slot>, i: nat)
    requires WellFormed(fields) && Typed(fields, slots) && i < |fields| && WellFormedField(fields[i])
    requires !fields[i].htype.Repeated? && Present(fields, slots, i) && SameField(fields, slots, i)
    requires !(fields[i].Singular() && !fields[i].ltype.Submessage?)
    ensures SameValue(fields[i], ValueOf(fields, slots, i))
  {
    hide WellFormed, WellFormedField, Typed, TypedValue, SameValue, RebuiltPasses, DefaultTest;
  }

  /** Under the condition a field is sent before exactly if it is sent after. */
  lemma SameAbsence(fields: seq<Field>, slots: seq<Slot>, prior: seq<Slot>, i: nat)
    requires WellFormed(fields) && Typed(fields, slots) && Typed(fields, prior) && i < |fields|
    requires WellFormedField(fields[i]) && !fields[i].htype.Repeated? && SameField(fields, slots, i)
    ensures Present(fields, CanonMsg(fields, slots, prior), i) <==> Present(fields, slots, i)
  {
    hide WellFormed, WellFormedField, Typed, TypedValue, SameValue, CanonMsg, RebuiltPasses, DefaultTest;
    FieldOk(fields, prior, i);
    RebuiltField(fields, slots, prior, i);
  }

  lemma {:induction false} FieldsReencode(fields: seq<Field>, slots: seq<Slot>, canon: seq<Slot>, i: nat)
    requires WellFormed(fields) && Typed(fields, slots) && Typed(fields, canon) && i <= |fields|
    requires forall j | i <= j < |fields| :: EncField(fields, canon, j) == EncField(fields, slots, j)
    ensures EncFrom(fields, canon, i) == EncFrom(fields, slots, i)
    decreases |fields| - i
  {
    hide WellFormed, Typed, EncField;
    if i < |fields| { FieldsReencode(fields, slots, canon, i + 1); }
  }

  lemma {:induction false} SameReencodes(fields: seq<Field>, slots: seq<Slot>, prior: seq<Slot>)
    requires WellFormed(fields) && Typed(fields, slots) && Typed(fields, prior) && SameMsg(fields, slots)
    ensures EncMsg(fields, CanonMsg(fields, slots, prior)) == EncMsg(fields, slots)
    decreases fields, 1
  {
    hide WellFormed, Typed, CanonMsg, EncField, SameField;
    var canon := CanonMsg(fields, slots, prior);
    forall i | 0 <= i < |fields| ensures EncField(fields, canon, i) == EncField(fields, slots, i) {
      FieldReencodes(fields, slots, prior, i);
    }
    FieldsReencode(fields, slots, canon, 0);
  }

  // ---------------------------------------------------------- it is necessary

  /** The bytes begin with the key of some row from j on, or there are none. */
  predicate StartsFrom(fields: seq<Field>, j: nat, s: seq<byte>) {
    s == [] || (Varint32(s).Done? && exists k :: j <= k < |fields| && Varint32(s).val / 8 == fields[k].tag)
  }

  /** What a field sends begins with its own key. */
  lemma FieldStarts(fields: seq<Field>, slots: seq<Slot>, i: nat, t: seq<byte>)
    requires WellFormed(fields) && Typed(fields, slots) && i < |fields| && EncField(fields, slots, i) != []
    ensures Varint32(EncField(fields, slots, i) + t).Done?
    ensures Varint32(EncField(fields, slots, i) + t).val / 8 == fields[i].tag
  {
    hide WellFormed, Typed, TypedSlot, TypedValue, WellFormedField, EncValue, EncVarint, Varint32, Prefixed,
         EncPacked, Present;
    FieldOk(fields, slots, i);
    var f := fields[i];
    FieldParts(f);
    var key := f.tag * 8 + if f.htype.Repeated? && Packable(f.ltype) then WT_STRING else WireTypeOf(f.ltype);
    if f.htype.Repeated? && !Packable(f.ltype) { EntriesStart(f, Entries(SlotOf(fields, slots, i))); }
    var e := EncField(fields, slots, i);
    assert EncVarint(key) <= e;
    var rest := e[|EncVarint(key)|..];
    KeyRoundTrip(f.tag, key % 8, rest + t);
    assert e + t == EncVarint(key) + (rest + t);
  }

  lemma EntriesStart(f: Field, elems: seq<Value>)
    requires WellFormedField(f) && AllTyped(f, elems)
    ensures elems != [] ==> EncTag(f) <= EncEntries(f, elems)
  {
    hide WellFormedField, TypedValue, EncValue, EncTag;
    if elems != [] {
      assert EncEntries(f, elems) == EncTag(f) + (EncValue(f, elems[0]) + EncEntries(f, elems[1..]));
    }
  }

  lemma {:induction false} FromStarts(fields: seq<Field>, slots: seq<Slot>, i: nat)
    requires WellFormed(fields) && Typed(fields, slots) && i <= |fields|
    ensures StartsFrom(fields, i, EncFrom(fields, slots, i))
    decreases |fields| - i
  {
    hide WellFormed, Typed, EncField, Varint32;
    if i < |fields| {
      FromStarts(fields, slots, i + 1);
      if EncField(fields, slots, i) != [] { FieldStarts(fields, slots, i, EncFrom(fields, slots, i + 1)); }
      assert EncField(fields, slots, i) == [] ==> EncFrom(fields, slots, i) == EncFrom(fields, slots, i + 1);
    }
  }

  /** Bytes of later rows do not begin like this row. */
  lemma NotLater(fields: seq<Field>, slots: seq<Slot>, i: nat, t: seq<byte>, s: seq<byte>)
    requires WellFormed(fields) && Typed(fields, slots) && i < |fields| && StartsFrom(fields, i + 1, s)
    requires s == EncField(fields, slots, i) + t
    ensures EncField(fields, slots, i) == []
  {
    hide Typed, EncField, Varint32;
    if EncField(fields, slots, i) != [] {
      FieldStarts(fields, slots, i, t);
    }
  }

  /** Length prefixes tell bodies apart. */
  lemma PrefixedUnique(b1: seq<byte>, b2: seq<byte>, x: seq<byte>, y: seq<byte>)
    requires |b1| <= SIZE_MAX && |b2| <= SIZE_MAX && Prefixed(b1) + x == Prefixed(b2) + y
    ensures b1 == b2 && x == y
  {
    hide EncVarint, Prefixed;
    var e1, e2 := EncVarint(|b1|), EncVarint(|b2|);
    assert Prefixed(b1) + x == e1 + (b1 + x) && Prefixed(b2) + y == e2 + (b2 + y);
    EncVarintDenotes(|b1|, b1 + x);
    EncVarintDenotes(|b2|, b2 + y);
    assert e1 == e2;
    var s, t := b1 + x, b2 + y;
    assert s == (e1 + s)[|e1|..] == (e2 + t)[|e2|..] == t;
    assert b1 == s[..|b1|] == b2 && x == s[|b1|..] == y;
  }

  /** A value that re-encodes to the same first bytes meets the condition. */
  lemma {:induction false} ValueSame(f: Field, v: Value, prior: Value, x: seq<byte>, y: seq<byte>)
    requires WellFormedField(f) && TypedValue(f, v) && TypedValue(f, prior)
    requires |EncValue(f, v)| <= SIZE_MAX && |EncValue(f, CanonValue(f, v, prior))| <= SIZE_MAX
    requires EncValue(f, CanonValue(f, v, prior)) + x == EncValue(f, v) + y
    ensures SameValue(f, v) && x == y
    decreases f, 0
  {
    hide WellFormed, Typed, EncMsg, CanonMsg, SameMsg, EncVarint, Prefixed, Delimited, LittleEndian;
    if f.ltype.Submessage? {
      var b1, b2 := EncMsg(f.sub, CanonMsg(f.sub, v.slots, prior.slots)), EncMsg(f.sub, v.slots);
      PrefixedUnique(b1, b2, x, y);
      MessageSame(f.sub, v.slots, prior.slots);
    } else {
      ScalarReencodes(f, v, prior);
      SameTail(EncValue(f, v), x, y);
    }
  }

  lemma SameTail(a: seq<byte>, x: seq<byte>, y: seq<byte>)
    requires a + x == a + y
    ensures x == y
  {
    assert x == (a + x)[|a|..] == (a + y)[|a|..] == y;
  }

  lemma {:induction false} EntriesSame(f: Field, items: seq<Value>, elems: seq<Value>, at: nat,
                                       x: seq<byte>, y: seq<byte>)
    requires WellFormedField(f) && AllTyped(f, elems) && AllTyped(f, items) && |elems| <= |items| && at <= |elems|
    requires var c := RebuiltElems(f, items, elems);
             && |EncEntries(f, elems[at..])| <= SIZE_MAX && |EncEntries(f, c[at..])| <= SIZE_MAX
             && EncEntries(f, c[at..]) + x == EncEntries(f, elems[at..]) + y
    ensures x == y && forall k | at <= k < |elems| :: SameValue(f, elems[k])
    decreases f, 1, |elems| - at
  {
    hide WellFormedField, TypedValue, EncValue, EncTag, CanonValue, RebuiltElems, SameValue;
    var c := RebuiltElems(f, items, elems);
    if at < |elems| {
      assert elems[at..][1..] == elems[at + 1..] && c[at..][1..] == c[at + 1..];
      var e, d := EncEntries(f, elems[at + 1..]), EncEntries(f, c[at + 1..]);
      assert EncEntries(f, c[at..]) + x == EncTag(f) + (EncValue(f, c[at]) + (d + x));
      assert EncEntries(f, elems[at..]) + y == EncTag(f) + (EncValue(f, elems[at]) + (e + y));
      SameTail(EncTag(f), EncValue(f, c[at]) + (d + x), EncValue(f, elems[at]) + (e + y));
      ValueSame(f, elems[at], items[at], d + x, e + y);
      EntriesSame(f, items, elems, at + 1, x, y);
    } else {
      assert elems[at..] == [] && c[at..] == [];
      SameTail([], x, y);
    }
  }

  lemma ScalarsSame(f: Field, elems: seq<Value>)
    requires WellFormedField(f) && AllTyped(f, elems) && Packable(f.ltype)
    ensures SameElems(f, elems)
  {
    hide TypedValue;
  }

  lemma {:induction false} FieldSame(fields: seq<Field>, slots: seq<Slot>, prior: seq<Slot>, i: nat,
                                     x: seq<byte>, y: seq<byte>)
    requires WellFormed(fields) && Typed(fields, slots) && Typed(fields, prior) && i < |fields|
    requires StartsFrom(fields, i + 1, x) && StartsFrom(fields, i + 1, y)
    requires var canon := CanonMsg(fields, slots, prior);
             && |EncField(fields, slots, i)| <= SIZE_MAX && |EncField(fields, canon, i)| <= SIZE_MAX
             && EncField(fields, canon, i) + x == EncField(fields, slots, i) + y
    ensures SameField(fields, slots, i) && x == y
    decreases fields, 0
  {
    hide WellFormed, WellFormedField, Typed, TypedSlot, TypedValue, CanonMsg, EncField, StartsFrom, SameField;
    FieldOk(fields, slots, i);
    FieldOk(fields, prior, i);
    var canon := CanonMsg(fields, slots, prior);
    var a, b := EncField(fields, slots, i), EncField(fields, canon, i);
    if a == [] {
      assert a + y == y;
      NotLater(fields, canon, i, x, y);
      assert b + x == x;
      BothAbsent(fields, slots, prior, i);
    } else if b == [] {
      assert b + x == x;
      NotLater(fields, slots, i, y, x);
    } else if fields[i].htype.Repeated? {
      ArraySame(fields, slots, prior, i, x, y);
    } else {
      BothSent(fields, slots, prior, i, x, y);
    }
  }

  lemma BothAbsent(fields: seq<Field>, slots: seq<Slot>, prior: seq<Slot>, i: nat)
    requires WellFormed(fields) && Typed(fields, slots) && Typed(fields, prior) && i < |fields|
    requires WellFormedField(fields[i])
    requires EncField(fields, slots, i) == [] == EncField(fields, CanonMsg(fields, slots, prior), i)
    ensures SameField(fields, slots, i)
  {
    hide WellFormed, WellFormedField, Typed, TypedValue, CanonMsg, SameValue, EncField, RebuiltPasses, DefaultTest,
         Overwritten;
    FieldOk(fields, prior, i);
    RebuiltField(fields, slots, prior, i);
    EncFieldEmpty(fields, slots, i);
    EncFieldEmpty(fields, CanonMsg(fields, slots, prior), i);
  }

  lemma {:induction false} ArraySame(fields: seq<Field>, slots: seq<Slot>, prior: seq<Slot>, i: nat,
                                     x: seq<byte>, y: seq<byte>)
    requires WellFormed(fields) && Typed(fields, slots) && Typed(fields, prior) && i < |fields|
    requires WellFormedField(fields[i]) && fields[i].htype.Repeated? && EncField(fields, slots, i) != []
    requires var canon := CanonMsg(fields, slots, prior);
             && |EncField(fields, slots, i)| <= SIZE_MAX && |EncField(fields, canon, i)| <= SIZE_MAX
             && EncField(fields, canon, i) + x == EncField(fields, slots, i) + y
    ensures SameField(fields, slots, i) && x == y
    decreases fields, 0, 0
  {
    hide WellFormed, WellFormedField, Typed, TypedSlot, TypedValue, CanonMsg, EncValue, EncPacked, EncEntries,
         SameValue, RebuiltElems, DefaultSlot;
    FieldOk(fields, prior, i);
    RebuiltField(fields, slots, prior, i);
    var f, elems := fields[i], Entries(SlotOf(fields, slots, i));
    ItemsTyped(fields, prior, i);
    var items := DefaultSlot(fields, i, prior[i]).items;
    if Packable(f.ltype) {
      ScalarsSame(f, elems);
      ArrayReencodes(f, items, elems);
      SameTail(EncField(fields, slots, i), x, y);
    } else {
      var c := RebuiltElems(f, items, elems);
      assert elems[0..] == elems && c[0..] == c;
      EntriesSame(f, items, elems, 0, x, y);
    }
  }

  lemma ItemsTyped(fields: seq<Field>, prior: seq<Slot>, i: nat)
    requires WellFormed(fields) && Typed(fields, prior) && i < |fields| && fields[i].htype.Repeated?
    requires WellFormedField(fields[i]) && |prior| == |fields| && TypedSlot(fields, i, prior[i])
    ensures var slot := DefaultSlot(fields, i, prior[i]);
            slot.Many? && AllTyped(fields[i], slot.items) && |slot.items| == fields[i].arraySize
  {
    hide TypedValue;
  }

  lemma {:induction false} BothSent(fields: seq<Field>, slots: seq<Slot>, prior: seq<Slot>, i: nat,
                                    x: seq<byte>, y: seq<byte>)
    requires WellFormed(fields) && Typed(fields, slots) && Typed(fields, prior) && i < |fields|
    requires WellFormedField(fields[i]) && !fields[i].htype.Repeated?
    requires EncField(fields, slots, i) != [] && EncField(fields, CanonMsg(fields, slots, prior), i) != []
    requires var canon := CanonMsg(fields, slots, prior);
             && |EncField(fields, slots, i)| <= SIZE_MAX && |EncField(fields, canon, i)| <= SIZE_MAX
             && EncField(fields, canon, i) + x == EncField(fields, slots, i) + y
    ensures SameField(fields, slots, i) && x == y
    decreases fields, 0, 0
  {
    hide WellFormed, WellFormedField, Typed, TypedSlot, TypedValue, CanonMsg, EncValue, EncTag, SameValue, SameField,
         CanonValue, Present, ValueOf, PriorOf, RebuiltPasses;
    FieldOk(fields, prior, i);
    RebuiltField(fields, slots, prior, i);
    var f, canon := fields[i], CanonMsg(fields, slots, prior);
    var v, w := ValueOf(fields, slots, i), ValueOf(fields, canon, i);
    assert EncField(fields, canon, i) + x == EncTag(f) + (EncValue(f, w) + x);
    assert EncField(fields, slots, i) + y == EncTag(f) + (EncValue(f, v) + y);
    SameTail(EncTag(f), EncValue(f, w) + x, EncValue(f, v) + y);
    ValueSame(f, v, PriorOf(fields, prior, i), x, y);
    SentSame(fields, slots, prior, i);
  }

  lemma SentSame(fields: seq<Field>, slots: seq<Slot>, prior: seq<Slot>, i: nat)
    requires WellFormed(fields) && Typed(fields, slots) && Typed(fields, prior) && i < |fields|
    requires WellFormedField(fields[i]) && !fields[i].htype.Repeated?
    requires Present(fields, slots, i) && Present(fields, CanonMsg(fields, slots, prior), i)
    requires SameValue(fields[i], ValueOf(fields, slots, i))
    ensures SameField(fields, slots, i)
  {
    hide WellFormed, WellFormedField, Typed, TypedValue, CanonMsg, SameValue, RebuiltPasses, DefaultTest;
    FieldOk(fields, prior, i);
    RebuiltField(fields, slots, prior, i);
  }

  lemma {:induction false} FieldsSame(fields: seq<Field>, slots: seq<Slot>, prior: seq<Slot>, i: nat)
    requires WellFormed(fields) && Typed(fields, slots) && Typed(fields, prior) && i <= |fields|
    requires var canon := CanonMsg(fields, slots, prior);
             EncFrom(fields, canon, i) == EncFrom(fields, slots, i) && |EncFrom(fields, slots, i)| <= SIZE_MAX
    ensures forall j | i <= j < |fields| :: SameField(fields, slots, j)
    decreases fields, 1, |fields| - i
  {
    hide WellFormed, Typed, CanonMsg, EncField, SameField, StartsFrom;
    if i < |fields| {
      var canon := CanonMsg(fields, slots, prior);
      FromStarts(fields, slots, i + 1);
      FromStarts(fields, canon, i + 1);
      FieldSame(fields, slots, prior, i, EncFrom(fields, canon, i + 1), EncFrom(fields, slots, i + 1));
      FieldsSame(fields, slots, prior, i + 1);
    }
  }

  lemma {:induction false} MessageSame(fields: seq<Field>, slots: seq<Slot>, prior: seq<Slot>)
    requires WellFormed(fields) && Typed(fields, slots) && Typed(fields, prior)
    requires EncMsg(fields, CanonMsg(fields, slots, prior)) == EncMsg(fields, slots)
    requires |EncMsg(fields, slots)| <= SIZE_MAX
    ensures SameMsg(fields, slots)
    decreases fields, 2
  {
    hide WellFormed, Typed, CanonMsg, EncFrom, SameField;
    FieldsSame(fields, slots, prior, 0);
  }

  // ------------------------------------------------------------ both together

  /** The canonical struct has the same encoding as the original if and only if no flagless field is left
      out of one and not of the other. */
  lemma CanonicalReencodes(fields: seq<Field>, slots: seq<Slot>, prior: seq<Slot>)
    requires WellFormed(fields) && Typed(fields, slots) && Typed(fields, prior) && |EncMsg(fields, slots)| <= SIZE_MAX
    ensures EncMsg(fields, CanonMsg(fields, slots, prior)) == EncMsg(fields, slots) <==> SameMsg(fields, slots)
  {
    hide WellFormed, Typed, CanonMsg, EncMsg, SameMsg;
    if SameMsg(fields, slots) { SameReencodes(fields, slots, prior); }
    if EncMsg(fields, CanonMsg(fields, slots, prior)) == EncMsg(fields, slots) { MessageSame(fields, slots, prior); }
  }

  /** Decoding a message and encoding the result gives the very same bytes, exactly then. */
  lemma DecodeThenEncode(fields: seq<Field>, slots: seq<Slot>, prior: seq<Slot>)
    requires WellFormed(fields) && Typed(fields, slots) && Typed(fields, prior) && |EncMsg(fields, slots)| <= SIZE_MAX
    requires SendableMsg(fields, slots) && RoomMsg(fields, slots)
    ensures var r := DecMsg(fields, EncMsg(fields, slots), Defaults(fields, prior));
            r.Done? && (EncMsg(fields, r.val) == EncMsg(fields, slots) <==> SameMsg(fields, slots))
  {
    hide WellFormed, Typed, CanonMsg, EncMsg, DecMsg, SameMsg, SendableMsg, RoomMsg, Defaults;
    MessageRoundTrip(fields, slots, prior);
    CanonicalReencodes(fields, slots, prior);
  }
}
