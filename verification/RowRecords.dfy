/** What one record does to the struct, row type by row type, and how a second record of the same
    submessage merges into the first. Whatever its wire type, a record of a known row that is not an array
    is read by the row's own decoder. */
module RowRecords {
  import opened Bits
  import opened Wire
  import opened Descriptors
  import opened Decoding
  import opened Merging
  import opened Occurrence
  import opened Boundaries
  import opened Arrays

  /** Row i was met and its slot stored; nothing else changed. */
  function After(fields: seq<Field>, i: nat, slot: Slot, c: Cursor): (c': Cursor)
    requires i < |fields| == |c.slots|
  {
    Cursor(c.slots[Home(fields, i) := slot], if fields[i].htype.Required? then c.seen + {i} else c.seen,
           c.fixedAt, c.fixedCount)
  }

  lemma AfterOk(fields: seq<Field>, i: nat, slot: Slot, c: Cursor)
    requires WellFormed(fields) && CursorOk(fields, c) && i < |fields| && TypedSlot(fields, Home(fields, i), slot)
    ensures |c.slots| == |fields| && CursorOk(fields, After(fields, i, slot, c))
  {
    hide WellFormed;
    TypedUpdate(fields, c.slots, Home(fields, i), slot);
  }

  /** A record: the key of row i with any wire type, and a payload. */
  function Key(fields: seq<Field>, i: nat, wireType: nat): seq<byte>
    requires i < |fields|
  {
    EncVarint(fields[i].tag * 8 + wireType)
  }

  // ------------------------------------------------------------- single rows

  lemma StoredTyped(fields: seq<Field>, i: nat, v: Value)
    requires WellFormed(fields) && i < |fields| && !fields[i].htype.Repeated?
    requires WellFormedField(fields[i]) && TypedValue(fields[i], v)
    ensures TypedSlot(fields, Home(fields, i), if fields[i].htype.Oneof? then Union(fields[i].tag, v) else One(true, v))
  {
    SelectsMember(fields, i);
  }

  lemma SingleRecord(fields: seq<Field>, i: nat, wireType: nat, s: seq<byte>, c: Cursor)
    requires WellFormed(fields) && CursorOk(fields, c) && i < |fields| && !fields[i].htype.Repeated? && wireType < 8
    ensures WellFormedField(fields[i]) && |c.slots| == |fields|
    ensures var base := BaseValue(fields, i, Enter(fields, i, c));
            var f, r := fields[i], DecValue(fields[i], s, base);
            r.Done? ==>
              var slot := if f.htype.Oneof? then Union(f.tag, r.val) else One(true, r.val);
              && CursorOk(fields, After(fields, i, slot, c))
              && DecLoop(fields, Key(fields, i, wireType) + s, c) == DecLoop(fields, r.rest, After(fields, i, slot, c))
    ensures var base := BaseValue(fields, i, Enter(fields, i, c));
            DecValue(fields[i], s, base).Fail? ==> DecLoop(fields, Key(fields, i, wireType) + s, c) == Fail
  {
    hide WellFormed, WellFormedField, Typed, TypedSlot, TypedValue, DecValue, BaseValue, DecLoop, Home;
    FieldOk(fields, c.slots, i);
    LoopOnField(fields, i, wireType, s, c);
    var f, e := fields[i], Enter(fields, i, c);
    var r := DecValue(f, s, BaseValue(fields, i, e));
    if r.Done? {
      StoredTyped(fields, i, r.val);
      var slot := if f.htype.Oneof? then Union(f.tag, r.val) else One(true, r.val);
      AfterOk(fields, i, slot, c);
      assert WithValue(fields, i, e, r.val) == After(fields, i, slot, c);
    }
  }

  /** A required, optional or union scalar is overwritten, and its flag or selector set. */
  lemma ScalarRecord(fields: seq<Field>, i: nat, wireType: nat, s: seq<byte>, c: Cursor)
    requires WellFormed(fields) && CursorOk(fields, c) && i < |fields| && !fields[i].htype.Repeated? && wireType < 8
    requires !fields[i].ltype.Submessage?
    ensures WellFormedField(fields[i]) && |c.slots| == |fields|
    ensures var f, r := fields[i], DecScalar(fields[i], s);
            if r.Fail? then DecLoop(fields, Key(fields, i, wireType) + s, c) == Fail
            else
              var slot := if f.htype.Oneof? then Union(f.tag, r.val) else One(true, r.val);
              && CursorOk(fields, After(fields, i, slot, c))
              && DecLoop(fields, Key(fields, i, wireType) + s, c) == DecLoop(fields, r.rest, After(fields, i, slot, c))
  {
    hide WellFormed, WellFormedField, Typed, TypedSlot, TypedValue, DecScalar, BaseValue, DecLoop, Home, After;
    SingleRecord(fields, i, wireType, s, c);
  }

  /** A required or optional submessage is decoded into what its slot holds. */
  lemma SubmessageRecord(fields: seq<Field>, i: nat, wireType: nat, body: seq<byte>, t: seq<byte>, c: Cursor)
    requires WellFormed(fields) && CursorOk(fields, c) && i < |fields| && wireType < 8 && |body| < TWO_32
    requires fields[i].ltype.Submessage? && (fields[i].htype.Required? || fields[i].htype.Optional?)
    ensures WellFormed(fields[i].sub) && |c.slots| == |fields|
    ensures c.slots[i].One? && c.slots[i].v.Msg? && Typed(fields[i].sub, c.slots[i].v.slots)
    ensures var r := DecMsg(fields[i].sub, body, c.slots[i].v.slots);
            var input := Key(fields, i, wireType) + (Delimited(body) + t);
            if r.Fail? then DecLoop(fields, input, c) == Fail
            else
              var c' := After(fields, i, One(true, Msg(r.val)), c);
              CursorOk(fields, c') && DecLoop(fields, input, c) == DecLoop(fields, t, c')
  {
    hide WellFormed, WellFormedField, Typed, DecMsg, DecLoop, Home, After, Delimited, ReadDelimited, Key;
    FieldOk(fields, c.slots, i);
    FieldParts(fields[i]);
    DelimitedRoundTrip(body, t);
    SingleRecord(fields, i, wireType, Delimited(body) + t, c);
    assert BaseValue(fields, i, Enter(fields, i, c)) == c.slots[i].v;
  }

  // ----------------------------------------------- the same submessage twice

  lemma {:induction false} NothingLeft(fields: seq<Field>, s: seq<byte>, c: Cursor)
    requires WellFormed(fields) && CursorOk(fields, c)
    requires DecLoop(fields, s, c).Done? && !DecLoop(fields, s, c).val.terminated
    ensures DecLoop(fields, s, c).rest == []
    decreases |s|
  {
    hide Varint32, DecRecord, Typed, WellFormed;
    if s != [] {
      var key := Varint32(s);
      LoopStep(fields, s, c);
      var r := DecRecord(fields, key.val / 8, key.val % 8, key.rest, c);
      NothingLeft(fields, r.rest, r.val);
    }
  }

  /** What two bodies in a row make of a struct, and what they make of it in one piece. */
  lemma BodiesMerge(fields: seq<Field>, a: seq<byte>, b: seq<byte>, d: seq<Slot>)
    requires WellFormed(fields) && Typed(fields, d) && NoFixedCountArrays(fields)
    requires DecMsg(fields, a, d).Done? && DecMsg(fields, b, DecMsg(fields, a, d).val).Done?
    ensures var d1 := DecMsg(fields, a, d).val;
            DecMsg(fields, a + b, d).Done? &&
            DecMsg(fields, a + b, d).val == if Terminated(fields, a, d) then d1 else DecMsg(fields, b, d1).val
  {
    hide Typed, WellFormed, DecLoop, RequiredSeen;
    var d1 := DecMsg(fields, a, d).val;
    if Terminated(fields, a, d) {
      LoopTerminated(fields, a, b, Start(d));
    } else {
      NothingLeft(fields, a, Start(d));
      ConcatenationMerges(fields, a, b, d, d1, DecMsg(fields, b, d1).val);
    }
  }

  lemma AfterTwice(fields: seq<Field>, i: nat, x: Slot, y: Slot, c: Cursor)
    requires i < |fields| == |c.slots|
    ensures After(fields, i, y, After(fields, i, x, c)) == After(fields, i, y, c)
  {
    hide Home;
    var h := Home(fields, i);
    assert c.slots[h := x][h := y] == c.slots[h := y];
  }

  /** Two records of one required or optional submessage, anywhere in a message, leave the struct with both
      bodies merged. One record with both bodies does the same, unless the first body ends in a zero key:
      then that one reads the first body only. */
  lemma SecondRecordMerges(fields: seq<Field>, i: nat, a: seq<byte>, b: seq<byte>, t: seq<byte>, c: Cursor)
    requires WellFormed(fields) && CursorOk(fields, c) && i < |fields| && |a| + |b| < TWO_32
    requires fields[i].ltype.Submessage? && (fields[i].htype.Required? || fields[i].htype.Optional?)
    requires NoFixedCountArrays(fields[i].sub)
    requires WellFormed(fields[i].sub) && |c.slots| == |fields|
    requires c.slots[i].One? && c.slots[i].v.Msg? && Typed(fields[i].sub, c.slots[i].v.slots)
    requires var sub, held := fields[i].sub, c.slots[i].v.slots;
             DecMsg(sub, a, held).Done? && DecMsg(sub, b, DecMsg(sub, a, held).val).Done?
    ensures var sub, held := fields[i].sub, c.slots[i].v.slots;
            var first := DecMsg(sub, a, held).val;
            var both := DecMsg(sub, b, first).val;
            var apart := Key(fields, i, WT_STRING) + (Delimited(a) + (Key(fields, i, WT_STRING) + (Delimited(b) + t)));
            var joined := Key(fields, i, WT_STRING) + (Delimited(a + b) + t);
            var done := After(fields, i, One(true, Msg(both)), c);
            var cut := After(fields, i, One(true, Msg(first)), c);
            && CursorOk(fields, done) && DecLoop(fields, apart, c) == DecLoop(fields, t, done)
            && CursorOk(fields, cut)
            && DecLoop(fields, joined, c) == DecLoop(fields, t, if Terminated(sub, a, held) then cut else done)
  {
    hide WellFormed, Typed, DecMsg, DecLoop, Delimited, Key, After, NoFixedCountArrays, Terminated, Home;
    var sub, held := fields[i].sub, c.slots[i].v.slots;
    var first := DecMsg(sub, a, held).val;
    var both := DecMsg(sub, b, first).val;
    var more := Key(fields, i, WT_STRING) + (Delimited(b) + t);
    SubmessageRecord(fields, i, WT_STRING, a, more, c);
    var cut := After(fields, i, One(true, Msg(first)), c);
    SlotAfter(fields, i, One(true, Msg(first)), c);
    SubmessageRecord(fields, i, WT_STRING, b, t, cut);
    AfterTwice(fields, i, One(true, Msg(first)), One(true, Msg(both)), c);
    BodiesMerge(sub, a, b, held);
    SubmessageRecord(fields, i, WT_STRING, a + b, t, c);
  }

  lemma SlotAfter(fields: seq<Field>, i: nat, slot: Slot, c: Cursor)
    requires i < |fields| == |c.slots| && !fields[i].htype.Oneof?
    ensures After(fields, i, slot, c).slots[i] == slot
  {
  }

  /** Judged by the bytes: where the keys of the first body fit the table and do not end in a zero key, two
      records are worth one. */
  lemma SplitSubmessage(fields: seq<Field>, i: nat, a: seq<byte>, b: seq<byte>, t: seq<byte>, c: Cursor)
    requires WellFormed(fields) && CursorOk(fields, c) && i < |fields| && |a| + |b| < TWO_32
    requires fields[i].ltype.Submessage? && (fields[i].htype.Required? || fields[i].htype.Optional?)
    requires NoFixedCountArrays(fields[i].sub) && KeysMatch(fields[i].sub, Keys(a)) && !EndsAtZeroKey(a)
    requires WellFormed(fields[i].sub) && |c.slots| == |fields|
    requires c.slots[i].One? && c.slots[i].v.Msg? && Typed(fields[i].sub, c.slots[i].v.slots)
    requires var sub, held := fields[i].sub, c.slots[i].v.slots;
             DecMsg(sub, a, held).Done? && DecMsg(sub, b, DecMsg(sub, a, held).val).Done?
    ensures var key := Key(fields, i, WT_STRING);
            DecLoop(fields, key + (Delimited(a) + (key + (Delimited(b) + t))), c)
            == DecLoop(fields, key + (Delimited(a + b) + t), c)
  {
    hide WellFormed, Typed, DecLoop, Delimited, Key, After, NoFixedCountArrays, Keys, KeysMatch, EndsAtZeroKey, Home;
    SecondRecordMerges(fields, i, a, b, t, c);
    TerminatedIff(fields[i].sub, a, Start(c.slots[i].v.slots));
  }

  /** A submessage in a union starts over at every record: its memory is cleared and set to its defaults,
      whatever the union held, this very member included. */
  lemma MemberRecord(fields: seq<Field>, i: nat, wireType: nat, body: seq<byte>, t: seq<byte>, c: Cursor)
    requires WellFormed(fields) && CursorOk(fields, c) && i < |fields| && wireType < 8 && |body| < TWO_32
    requires fields[i].ltype.Submessage? && fields[i].htype.Oneof?
    ensures WellFormed(fields[i].sub) && |c.slots| == |fields|
    ensures var sub := fields[i].sub;
            var r := DecMsg(sub, body, Defaults(sub, ZeroSlots(sub)));
            var input := Key(fields, i, wireType) + (Delimited(body) + t);
            if r.Fail? then DecLoop(fields, input, c) == Fail
            else
              var c' := After(fields, i, Union(fields[i].tag, Msg(r.val)), c);
              CursorOk(fields, c') && DecLoop(fields, input, c) == DecLoop(fields, t, c')
  {
    hide WellFormed, WellFormedField, Typed, TypedSlot, DecMsg, DecLoop, Home, After, Delimited, ReadDelimited, Key,
         Defaults, ZeroSlots;
    FieldOk(fields, c.slots, i);
    FieldParts(fields[i]);
    DelimitedRoundTrip(body, t);
    SingleRecord(fields, i, wireType, Delimited(body) + t, c);
    assert BaseValue(fields, i, Enter(fields, i, c)) == Msg(Defaults(fields[i].sub, ZeroSlots(fields[i].sub)));
  }

  /** So the last record of a union's submessage is the only one that counts. */
  lemma LastMemberWins(fields: seq<Field>, i: nat, a: seq<byte>, b: seq<byte>, t: seq<byte>, c: Cursor)
    requires WellFormed(fields) && CursorOk(fields, c) && i < |fields| && |a| < TWO_32 && |b| < TWO_32
    requires fields[i].ltype.Submessage? && fields[i].htype.Oneof? && WellFormed(fields[i].sub)
    requires DecMsg(fields[i].sub, a, Defaults(fields[i].sub, ZeroSlots(fields[i].sub))).Done?
    ensures var key := Key(fields, i, WT_STRING);
            DecLoop(fields, key + (Delimited(a) + (key + (Delimited(b) + t))), c)
            == DecLoop(fields, key + (Delimited(b) + t), c)
  {
    hide WellFormed, Typed, DecMsg, DecLoop, Delimited, Key, After, Home, Defaults, ZeroSlots;
    var sub := fields[i].sub;
    var more := Key(fields, i, WT_STRING) + (Delimited(b) + t);
    MemberRecord(fields, i, WT_STRING, a, more, c);
    var x := Union(fields[i].tag, Msg(DecMsg(sub, a, Defaults(sub, ZeroSlots(sub))).val));
    MemberRecord(fields, i, WT_STRING, b, t, After(fields, i, x, c));
    MemberRecord(fields, i, WT_STRING, b, t, c);
    var r := DecMsg(sub, b, Defaults(sub, ZeroSlots(sub)));
    if r.Done? { AfterTwice(fields, i, x, Union(fields[i].tag, Msg(r.val)), c); }
  }

  // ----------------------------------------------------------------- entries

  /** A new entry of a counted submessage array starts from the defaults over the memory it takes. */
  lemma EntryRecord(fields: seq<Field>, i: nat, wireType: nat, body: seq<byte>, t: seq<byte>, c: Cursor)
    requires WellFormed(fields) && CursorOk(fields, c) && i < |fields| && wireType < 8 && |body| < TWO_32
    requires fields[i].ltype.Submessage? && fields[i].htype.Repeated? && !fields[i].FixedCount()
    ensures WellFormed(fields[i].sub) && |c.slots| == |fields|
    ensures c.slots[i].Many? && |c.slots[i].items| == fields[i].arraySize
    ensures forall k | 0 <= k < fields[i].arraySize ::
              c.slots[i].items[k].Msg? && Typed(fields[i].sub, c.slots[i].items[k].slots)
    ensures var sub, n, items := fields[i].sub, c.slots[i].count, c.slots[i].items;
            var input := Key(fields, i, wireType) + (Delimited(body) + t);
            if n >= fields[i].arraySize then DecLoop(fields, input, c) == Fail
            else
              var r := DecMsg(sub, body, Defaults(sub, items[n].slots));
              if r.Fail? then DecLoop(fields, input, c) == Fail
              else
                var c' := After(fields, i, Many(n + 1, items[n := Msg(r.val)]), c);
                CursorOk(fields, c') && DecLoop(fields, input, c) == DecLoop(fields, t, c')
  {
    hide WellFormed, WellFormedField, Typed, DecMsg, DecLoop, Home, Delimited, ReadDelimited, Defaults;
    FieldOk(fields, c.slots, i);
    FieldParts(fields[i]);
    var f, e := fields[i], Enter(fields, i, c);
    var slot := c.slots[i];
    EntriesTyped(f, slot.items);
    DelimitedRoundTrip(body, t);
    LoopOnField(fields, i, wireType, Delimited(body) + t, c);
    if slot.count < f.arraySize {
      var r := DecMsg(f.sub, body, Defaults(f.sub, slot.items[slot.count].slots));
      assert BaseValue(fields, i, e) == Msg(Defaults(f.sub, slot.items[slot.count].slots));
      if r.Done? {
        assert WithFill(fields, i, e, Put(f, FillAt(fields, i, e), Msg(r.val)))
            == After(fields, i, Many(slot.count + 1, slot.items[slot.count := Msg(r.val)]), c);
      }
    }
  }

  lemma EntriesTyped(f: Field, items: seq<Value>)
    requires f.ltype.Submessage? && AllTyped(f, items)
    ensures forall k | 0 <= k < |items| :: items[k].Msg? && Typed(f.sub, items[k].slots)
  {
    hide Typed;
    forall k | 0 <= k < |items| ensures items[k].Msg? && Typed(f.sub, items[k].slots) {
      assert TypedValue(f, items[k]);
    }
  }
}
