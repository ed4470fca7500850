/** Decoding pieces one after the other: concatenated messages merge ("last one wins"), unknown
    fields leave no trace, and skipping frames a field exactly as decoding it does. */
module Merging {
  import opened Bits
  import opened Wire
  import opened Descriptors
  import opened Decoding

  // ------------------------------------------ decoding does not look further

  lemma DecScalarExtends(f: Field, s: seq<byte>, t: seq<byte>)
    requires WellFormedField(f) && !f.ltype.Submessage? && DecScalar(f, s).Done?
    ensures DecScalar(f, s + t) == Done(DecScalar(f, s).val, DecScalar(f, s).rest + t)
  {
    hide Varint32, Varint64From, ReadDelimited, ReadFixed;
    match f.ltype
    case Bool => Varint32Extends(s, t);
    case Varint => Varint64FromExtends(s, t, 0, 0);
    case UVarint => Varint64FromExtends(s, t, 0, 0);
    case SVarint => Varint64FromExtends(s, t, 0, 0);
    case Fixed32 => ReadFixedExtends(s, t, 4);
    case Fixed64 => ReadFixedExtends(s, t, 8);
    case _ => ReadDelimitedExtends(s, t);
  }

  lemma DecValueExtends(f: Field, s: seq<byte>, t: seq<byte>, base: Value)
    requires WellFormedField(f) && TypedValue(f, base) && DecValue(f, s, base).Done?
    ensures DecValue(f, s + t, base) == Done(DecValue(f, s, base).val, DecValue(f, s, base).rest + t)
  {
    hide ReadDelimited, DecScalar, DecMsg;
    if f.ltype.Submessage? { ReadDelimitedExtends(s, t); } else { DecScalarExtends(f, s, t); }
  }

  lemma DecFieldExtends(fields: seq<Field>, i: nat, wireType: nat, s: seq<byte>, t: seq<byte>, c: Cursor)
    requires WellFormed(fields) && CursorOk(fields, c) && i < |fields|
    requires fields[i].FixedCount() ==> c.fixedAt == i
    requires DecField(fields, i, wireType, s, c).Done?
    ensures var r := DecField(fields, i, wireType, s, c);
            DecField(fields, i, wireType, s + t, c) == Done(r.val, r.rest + t)
  {
    hide ReadDelimited, DecValue, DecPacked, Typed, TypedSlot, TypedValue;
    var f := fields[i];
    if f.htype.Repeated? && wireType == WT_STRING && Packable(f.ltype) {
      ReadDelimitedExtends(s, t);
    } else {
      DecValueExtends(f, s, t, BaseValue(fields, i, c));
    }
  }

  lemma DecRecordExtends(fields: seq<Field>, tag: nat, wireType: nat, s: seq<byte>, t: seq<byte>, c: Cursor)
    requires WellFormed(fields) && CursorOk(fields, c)
    requires DecRecord(fields, tag, wireType, s, c).Done?
    ensures var r := DecRecord(fields, tag, wireType, s, c);
            DecRecord(fields, tag, wireType, s + t, c) == Done(r.val, r.rest + t)
  {
    hide Varint32, Skip, DecField, Typed;
    var i := Lookup(fields, tag);
    if fields == [] && tag == 0 {
      Varint32Extends(s, t);
    } else if i == |fields| {
      SkipExtends(wireType, s, t);
    } else {
      DecFieldExtends(fields, i, wireType, s, t, Enter(fields, i, c));
    }
  }

  // ------------------------------------------------------------- boundaries

  /** The bytes are whole records, none of them a terminating zero key: their end is a field
      boundary, reached in state c'. */
  predicate Records(fields: seq<Field>, s: seq<byte>, c: Cursor, c': Cursor)
    requires WellFormed(fields) && CursorOk(fields, c)
  {
    DecLoop(fields, s, c) == Done(End(c', false), [])
  }

  /** One step of the loop on a nonempty input whose key is not zero. */
  lemma LoopStep(fields: seq<Field>, s: seq<byte>, c: Cursor)
    requires WellFormed(fields) && CursorOk(fields, c)
    requires s != [] && Varint32(s).Done? && Varint32(s).val != 0
    ensures var key := Varint32(s);
            var r := DecRecord(fields, key.val / 8, key.val % 8, key.rest, c);
            DecLoop(fields, s, c) == if r.Done? then DecLoop(fields, r.rest, r.val) else Fail
  {
    hide Varint32, DecRecord, Typed, WellFormed;
  }

  /** After whole records, decoding goes on with what follows in the state they left. */
  lemma {:induction false} LoopAfterRecords(fields: seq<Field>, s: seq<byte>, t: seq<byte>, c: Cursor, c': Cursor)
    requires WellFormed(fields) && CursorOk(fields, c) && Records(fields, s, c, c')
    ensures CursorOk(fields, c')
    ensures DecLoop(fields, s + t, c) == DecLoop(fields, t, c')
    decreases |s|
  {
    hide Varint32, DecRecord, Typed, WellFormed;
    if s == [] {
      assert s + t == t;
    } else {
      var key := Varint32(s);
      LoopStep(fields, s, c);
      var r := DecRecord(fields, key.val / 8, key.val % 8, key.rest, c);
      Varint32Extends(s, t);
      DecRecordExtends(fields, key.val / 8, key.val % 8, key.rest, t, c);
      LoopStep(fields, s + t, c);
      LoopAfterRecords(fields, r.rest, t, r.val, c');
    }
  }

  /** A terminated loop never looks at the bytes after its zero key. */
  lemma {:induction false} LoopTerminated(fields: seq<Field>, s: seq<byte>, t: seq<byte>, c: Cursor)
    requires WellFormed(fields) && CursorOk(fields, c)
    requires DecLoop(fields, s, c).Done? && DecLoop(fields, s, c).val.terminated
    ensures var r := DecLoop(fields, s, c);
            DecLoop(fields, s + t, c) == Done(r.val, r.rest + t)
    decreases |s|
  {
    hide Varint32, DecRecord, Typed, WellFormed;
    var key := Varint32(s);
    Varint32Extends(s, t);
    if key.val != 0 {
      LoopStep(fields, s, c);
      var r := DecRecord(fields, key.val / 8, key.val % 8, key.rest, c);
      DecRecordExtends(fields, key.val / 8, key.val % 8, key.rest, t, c);
      LoopStep(fields, s + t, c);
      LoopTerminated(fields, r.rest, t, r.val);
    }
  }

  // --------------------------------------------------------- unknown fields

  /** A whole record whose tag, at least 1, is not in the table; any of the four wire types. */
  predicate UnknownField(fields: seq<Field>, r: seq<byte>) {
    && Varint32(r).Done?
    && var key := Varint32(r);
    && key.val / 8 >= 1 && Lookup(fields, key.val / 8) == |fields|
    && Skip(key.val % 8, key.rest) == Done((), [])
  }

  /** Inserting an unknown field at a field boundary changes neither success, nor the struct, nor
      what is left unread. */
  lemma UnknownFieldInvisible(fields: seq<Field>, a: seq<byte>, r: seq<byte>, b: seq<byte>,
                              slots: seq<Slot>, c: Cursor)
    requires WellFormed(fields) && Typed(fields, slots)
    requires Records(fields, a, Start(slots), c)
    requires UnknownField(fields, r)
    ensures DecMsg(fields, a + r + b, slots) == DecMsg(fields, a + b, slots)
  {
    hide Varint32, Skip, Typed, WellFormed, DecLoop, Complete;
    var key := Varint32(r);
    LoopAfterRecords(fields, a, b, Start(slots), c);
    assert a + r + b == a + (r + b);
    LoopAfterRecords(fields, a, r + b, Start(slots), c);
    Varint32Extends(r, b);
    SkipExtends(key.val % 8, key.rest, b);
    assert [] + b == b;
    assert DecRecord(fields, key.val / 8, key.val % 8, key.rest + b, c) == Done(c, b);
    LoopStep(fields, r + b, c);
  }

  // ------------------------------------------------- concatenation is merge

  function AddSeen(c: Cursor, extra: set<nat>): Cursor {
    c.(seen := c.seen + extra)
  }

  /** Which required fields were seen earlier does not influence the decoding of a record. */
  lemma RecordIgnoresSeen(fields: seq<Field>, tag: nat, wireType: nat, s: seq<byte>, c: Cursor, extra: set<nat>)
    requires WellFormed(fields) && CursorOk(fields, c)
    ensures CursorOk(fields, AddSeen(c, extra))
    ensures var r := DecRecord(fields, tag, wireType, s, c);
            DecRecord(fields, tag, wireType, s, AddSeen(c, extra))
            == if r.Done? then Done(AddSeen(r.val, extra), r.rest) else Fail
  {
    hide Varint32, Skip, Typed, WellFormed, ReadDelimited, DecPacked, DecValue;
    var i, c' := Lookup(fields, tag), AddSeen(c, extra);
    if i < |fields| && MayEnter(fields, i, c) {
      assert Enter(fields, i, c').seen == Enter(fields, i, c).seen + extra;
      assert Enter(fields, i, c') == AddSeen(Enter(fields, i, c), extra);
      FieldIgnoresSeen(fields, i, wireType, s, Enter(fields, i, c), extra);
    }
  }

  lemma FieldIgnoresSeen(fields: seq<Field>, i: nat, wireType: nat, s: seq<byte>, c: Cursor, extra: set<nat>)
    requires WellFormed(fields) && CursorOk(fields, c) && i < |fields|
    requires fields[i].FixedCount() ==> c.fixedAt == i
    ensures var r := DecField(fields, i, wireType, s, c);
            DecField(fields, i, wireType, s, AddSeen(c, extra))
            == if r.Done? then Done(AddSeen(r.val, extra), r.rest) else Fail
  {
    hide Typed, WellFormed, ReadDelimited, DecPacked, DecValue, Put;
  }

  lemma {:induction false} LoopIgnoresSeen(fields: seq<Field>, s: seq<byte>, c: Cursor, extra: set<nat>)
    requires WellFormed(fields) && CursorOk(fields, c)
    ensures CursorOk(fields, AddSeen(c, extra))
    ensures var r := DecLoop(fields, s, c);
            DecLoop(fields, s, AddSeen(c, extra))
            == if r.Done? then Done(End(AddSeen(r.val.c, extra), r.val.terminated), r.rest) else Fail
    decreases |s|
  {
    hide Varint32, DecRecord, Typed, WellFormed;
    if s != [] && Varint32(s).Done? && Varint32(s).val != 0 {
      var key := Varint32(s);
      RecordIgnoresSeen(fields, key.val / 8, key.val % 8, key.rest, c, extra);
      var r := DecRecord(fields, key.val / 8, key.val % 8, key.rest, c);
      LoopStep(fields, s, c);
      LoopStep(fields, s, AddSeen(c, extra));
      if r.Done? { LoopIgnoresSeen(fields, r.rest, r.val, extra); }
    }
  }

  predicate NoFixedCountArrays(fields: seq<Field>) {
    forall i | 0 <= i < |fields| :: !fields[i].FixedCount()
  }

  /** The decoder stopped at a zero key instead of the end of the bytes. */
  predicate Terminated(fields: seq<Field>, s: seq<byte>, slots: seq<Slot>)
    requires WellFormed(fields) && Typed(fields, slots)
  {
    var r := DecLoop(fields, s, Start(slots));
    r.Done? && r.val.terminated
  }

  /** "Last one wins": A ++ B decodes like B into what A left, unless A ends in a zero key, in which
      case B is not read. The struct is the same exactly when A does not, or B changes nothing. */
  lemma ConcatenationMerges(fields: seq<Field>, a: seq<byte>, b: seq<byte>, d: seq<Slot>, d1: seq<Slot>, d2: seq<Slot>)
    requires WellFormed(fields) && Typed(fields, d) && NoFixedCountArrays(fields)
    requires DecMsg(fields, a, d) == Done(d1, [])
    requires DecMsg(fields, b, d1).Done? && DecMsg(fields, b, d1).val == d2
    ensures var r := DecMsg(fields, a + b, d);
            && r == (if Terminated(fields, a, d) then Done(d1, b) else DecMsg(fields, b, d1))
            && (r.val == d2 <==> !Terminated(fields, a, d) || d2 == d1)
  {
    hide Typed, WellFormed, DecLoop, RequiredSeen;
    var la := DecLoop(fields, a, Start(d));
    var lb := DecLoop(fields, b, Start(d1));
    var c := la.val.c;
    if la.val.terminated {
      LoopTerminated(fields, a, b, Start(d));
      assert [] + b == b;
      assert DecMsg(fields, a + b, d) == Done(d1, b);
    } else {
      assert Records(fields, a, Start(d), c);
      LoopAfterRecords(fields, a, b, Start(d), c);
      assert c.fixedAt == -1;
      assert {} + c.seen == c.seen;
      assert c == AddSeen(Start(d1), c.seen);
      LoopIgnoresSeen(fields, b, Start(d1), c.seen);
      MoreSeen(fields, lb.val.c.seen, c.seen);
    }
  }

  lemma LoopOfNothing(fields: seq<Field>, c: Cursor)
    requires WellFormed(fields) && CursorOk(fields, c)
    ensures DecLoop(fields, [], c) == Done(End(c, false), [])
  {
  }

  lemma MoreSeen(fields: seq<Field>, seen: set<nat>, extra: set<nat>)
    requires RequiredSeen(fields, seen)
    ensures RequiredSeen(fields, seen + extra)
  {
  }

  /** The terminator exception is real: after a lone zero byte nothing of B is read. */
  lemma ZeroKeyHidesWhatFollows(fields: seq<Field>, b: seq<byte>, d: seq<Slot>)
    requires WellFormed(fields) && Typed(fields, d) && RequiredSeen(fields, {})
    ensures DecMsg(fields, [0], d) == Done(d, [])
    ensures DecMsg(fields, [0] + b, d) == Done(d, b)
  {
    hide Typed, WellFormed;
    assert ([0] + b)[1..] == b;
  }

  // ------------------------------------------- skip and decode frame alike

  /** The wire type is one the field can be sent with. */
  predicate Matches(f: Field, wireType: nat) {
    wireType == WireTypeOf(f.ltype) || (f.htype.Repeated? && Packable(f.ltype) && wireType == WT_STRING)
  }

  lemma SkipVarintSpan(s: seq<byte>)
    requires HasVarint(s)
    ensures Skip(WT_VARINT, s) == Done((), s[VarintLength(s)..])
  {
    SkipVarintFrame(s);
    assert SkipVarint(s).val == ();
  }

  lemma ScalarFramesLikeSkip(f: Field, s: seq<byte>)
    requires WellFormedField(f) && !f.ltype.Submessage? && DecScalar(f, s).Done?
    ensures Skip(WireTypeOf(f.ltype), s) == Done((), DecScalar(f, s).rest)
  {
    hide Varint32, Varint64From, ReadDelimited, SkipVarint;
    if f.ltype.Bool? {
      Varint32Denotes(s);
      SkipVarintSpan(s);
    } else if f.ltype.Varint? || f.ltype.UVarint? || f.ltype.SVarint? {
      assert Varint64(s).Done? && DecScalar(f, s).rest == Varint64(s).rest;
      Varint64Denotes(s);
      SkipVarintSpan(s);
    }
  }

  /** For a matching wire type, a successful decode consumes exactly what skipping would. */
  lemma DecodeFramesLikeSkip(fields: seq<Field>, i: nat, wireType: nat, s: seq<byte>, c: Cursor)
    requires WellFormed(fields) && CursorOk(fields, c) && i < |fields|
    requires fields[i].FixedCount() ==> c.fixedAt == i
    requires Matches(fields[i], wireType)
    requires DecField(fields, i, wireType, s, c).Done?
    ensures Skip(wireType, s) == Done((), DecField(fields, i, wireType, s, c).rest)
  {
    hide Varint32, ReadDelimited, SkipVarint, DecPacked, DecMsg, DecScalar, Typed, TypedSlot;
    var f := fields[i];
    if !(f.htype.Repeated? && wireType == WT_STRING && Packable(f.ltype)) && !f.ltype.Submessage? {
      ScalarFramesLikeSkip(f, s);
    }
  }
}
