/** Which keys the encoder sends, in literal numbers and in table order. */
module WireKeys {
  import opened Bits
  import opened Wire
  import opened Descriptors
  import opened Encoding
  import opened Canonical
  import opened Arrays
  import opened Occurrence
  import opened Ordering

  /** The wire type of a single value: 0 for varints, 1 for eight bytes, 5 for four, 2 for what has a length. */
  function WireNumber(l: LType): nat {
    match l
    case Bool => 0
    case Varint => 0
    case UVarint => 0
    case SVarint => 0
    case Fixed64 => 1
    case Fixed32 => 5
    case Bytes => 2
    case String => 2
    case Submessage => 2
    case FixedLengthBytes => 2
    case Extension => 2
  }

  /** The keys that row i sends: none if it is not present, one for a packed array, one per entry for others. */
  function RowKeys(fields: seq<Field>, slots: seq<Slot>, i: nat): seq<nat>
    requires WellFormed(fields) && Typed(fields, slots) && i < |fields|
  {
    var f, slot := fields[i], SlotOf(fields, slots, i);
    var key := f.tag * 8 + WireNumber(f.ltype);
    if !Present(fields, slots, i) then []
    else if !f.htype.Repeated? then [key]
    else if Packable(f.ltype) then if Entries(slot) == [] then [] else [f.tag * 8 + 2]
    else seq(|Entries(slot)|, _ => key)
  }

  function KeysFrom(fields: seq<Field>, slots: seq<Slot>, i: nat): seq<nat>
    requires WellFormed(fields) && Typed(fields, slots) && i <= |fields|
    decreases |fields| - i
  {
    if i == |fields| then [] else RowKeys(fields, slots, i) + KeysFrom(fields, slots, i + 1)
  }

  lemma WireNumberIs(l: LType)
    ensures WireTypeOf(l) == WireNumber(l) < 8
  {
  }

  /** A record gives its key, and the keys behind it follow. */
  lemma OneKey(tag: nat, wireType: nat, payload: seq<byte>, t: seq<byte>)
    requires 1 <= tag <= MAX_TAG && wireType < 8 && Skip(wireType, payload) == Done((), [])
    ensures Keys(EncVarint(tag * 8 + wireType) + payload + t) == [tag * 8 + wireType] + Keys(t)
  {
    hide Varint32, Skip, EncVarint;
    var s := EncVarint(tag * 8 + wireType) + payload + t;
    assert s == EncVarint(tag * 8 + wireType) + (payload + t);
    KeyRoundTrip(tag, wireType, payload + t);
    SkipExtends(wireType, payload, t);
    assert [] + t == t;
    assert s != [];
  }

  lemma {:induction false} EntryKeys(f: Field, elems: seq<Value>, t: seq<byte>)
    requires WellFormedField(f) && AllTyped(f, elems) && AllSendable(f, elems)
    ensures Keys(EncEntries(f, elems) + t) == seq(|elems|, _ => f.tag * 8 + WireNumber(f.ltype)) + Keys(t)
    decreases |elems|
  {
    hide WellFormedField, TypedValue, SendableValue, EncValue, EncVarint, Keys, Skip;
    var key := f.tag * 8 + WireNumber(f.ltype);
    if elems == [] {
      assert EncEntries(f, elems) + t == t;
    } else {
      FieldParts(f);
      WireNumberIs(f.ltype);
      assert AllSendable(f, elems[1..]);
      var more := EncEntries(f, elems[1..]) + t;
      assert EncEntries(f, elems) + t == EncVarint(key) + EncValue(f, elems[0]) + more;
      ValueSkips(f, elems[0]);
      OneKey(f.tag, WireNumber(f.ltype), EncValue(f, elems[0]), more);
      EntryKeys(f, elems[1..], t);
      assert seq(|elems|, _ => key) == [key] + seq(|elems[1..]|, _ => key);
    }
  }

  lemma ArrayKeys(f: Field, elems: seq<Value>, t: seq<byte>)
    requires WellFormedField(f) && AllTyped(f, elems) && AllSendable(f, elems) && elems != []
    requires Packable(f.ltype) ==> |EncPacked(f, elems)| < TWO_32
    ensures Keys(EncArray(f, elems) + t)
            == (if Packable(f.ltype) then [f.tag * 8 + 2] else seq(|elems|, _ => f.tag * 8 + WireNumber(f.ltype)))
               + Keys(t)
  {
    hide WellFormedField, TypedValue, SendableValue, EncValue, EncPacked, EncEntries, EncVarint, Keys, Skip, Delimited;
    FieldParts(f);
    if Packable(f.ltype) {
      DelimitedSkips(EncPacked(f, elems));
      OneKey(f.tag, 2, Delimited(EncPacked(f, elems)), t);
    } else {
      EntryKeys(f, elems, t);
    }
  }

  lemma RowKeysSent(fields: seq<Field>, slots: seq<Slot>, i: nat, t: seq<byte>)
    requires WellFormed(fields) && Typed(fields, slots) && SendableMsg(fields, slots) && i < |fields|
    ensures Keys(EncField(fields, slots, i) + t) == RowKeys(fields, slots, i) + Keys(t)
  {
    hide WellFormed, Typed, WellFormedField, TypedValue, SendableValue, EncValue, EncPacked, EncArray, EncVarint,
         Keys, Skip, DefaultValueTest;
    FieldOk(fields, slots, i);
    var f, slot := fields[i], SlotOf(fields, slots, i);
    assert SendableField(fields, slots, i);
    FieldParts(f);
    WireNumberIs(f.ltype);
    if EncField(fields, slots, i) == [] {
      assert [] + t == t;
      EncFieldEmpty(fields, slots, i);
    } else if f.htype.Repeated? {
      SomeEntries(f, Entries(slot));
      ArrayKeys(f, Entries(slot), t);
    } else {
      var v := ValueOf(fields, slots, i);
      ValueSkips(f, v);
      OneKey(f.tag, WireNumber(f.ltype), EncValue(f, v), t);
    }
  }

  lemma SomeEntries(f: Field, elems: seq<Value>)
    requires WellFormedField(f) && AllTyped(f, elems) && EncArray(f, elems) != []
    ensures elems != []
  {
  }

  lemma {:induction false} KeysSentFrom(fields: seq<Field>, slots: seq<Slot>, i: nat)
    requires WellFormed(fields) && Typed(fields, slots) && SendableMsg(fields, slots) && i <= |fields|
    ensures Keys(EncFrom(fields, slots, i)) == KeysFrom(fields, slots, i)
    decreases |fields| - i
  {
    hide WellFormed, Typed, SendableMsg, EncField, Keys, RowKeys;
    if i == |fields| {
      NoKeys();
    } else {
      RowKeysSent(fields, slots, i, EncFrom(fields, slots, i + 1));
      KeysSentFrom(fields, slots, i + 1);
    }
  }

  lemma NoKeys()
    ensures Keys([]) == []
  {
  }

  /** Skipping through an encoded struct meets exactly the keys of its rows, in table order. */
  lemma KeysSent(fields: seq<Field>, slots: seq<Slot>)
    requires WellFormed(fields) && Typed(fields, slots) && SendableMsg(fields, slots)
    ensures Keys(EncMsg(fields, slots)) == KeysFrom(fields, slots, 0)
  {
    KeysSentFrom(fields, slots, 0);
  }

  lemma RowKeyIs(fields: seq<Field>, slots: seq<Slot>, i: nat, k: nat)
    requires WellFormed(fields) && Typed(fields, slots) && i < |fields| && k < |RowKeys(fields, slots, i)|
    ensures var f := fields[i];
            && Present(fields, slots, i)
            && RowKeys(fields, slots, i)[k]
               == f.tag * 8 + if f.htype.Repeated? && Packable(f.ltype) then 2 else WireNumber(f.ltype)
  {
    hide WellFormed, Typed, Present;
  }

  /** Each key is that of a present row, with the wire type of its type, or 2 for a packed array. */
  lemma {:induction false} KeyBelongs(fields: seq<Field>, slots: seq<Slot>, i: nat, k: nat) returns (j: nat)
    requires WellFormed(fields) && Typed(fields, slots) && i <= |fields| && k < |KeysFrom(fields, slots, i)|
    ensures i <= j < |fields| && Present(fields, slots, j)
    ensures var f, key := fields[j], KeysFrom(fields, slots, i)[k];
            key / 8 == f.tag && key % 8 == if f.htype.Repeated? && Packable(f.ltype) then 2 else WireNumber(f.ltype)
    decreases |fields| - i
  {
    hide WellFormed, Typed, Present, RowKeys;
    if k < |RowKeys(fields, slots, i)| {
      j := i;
      RowKeyIs(fields, slots, i, k);
      WireNumberIs(fields[i].ltype);
    } else {
      j := KeyBelongs(fields, slots, i + 1, k - |RowKeys(fields, slots, i)|);
    }
  }
}
