/** The decoder: reads records from a stream into a struct, tracking required fields in a bitmap
    and fixed-count arrays with a counter of its own. */
module Decoder {
  import opened Bits
  import opened Wire
  import opened Descriptors
  import opened Decoding
  import opened FieldIters
  import opened InStreams
  import opened RequiredFields

  /** The destination of a decode. */
  class Struct {
    var slots: seq<Slot>

    constructor (initial: seq<Slot>)
      ensures slots == initial
    {
      slots := initial;
    }
  }

  // ---------------------------------------------------------------- defaults

  /** Sets one field to its default, a submessage recursively. The count of an array is reset through
      its size pointer, which for a fixed-count array points at the entries themselves. */
  method FieldDefault(fields: seq<Field>, i: nat, prior: Slot) returns (slot: Slot)
    requires WellFormed(fields) && i < |fields| && TypedSlot(fields, i, prior)
    ensures WellFormedField(fields[i]) && slot == DefaultSlot(fields, i, prior)
    decreases fields, 0
  {
    var f := fields[i];
    assert WellFormedField(f);
    if f.htype.Oneof? { return UNSET; }
    if f.htype.Repeated? {
      if f.FixedCount() { return Many(f.arraySize, StoredOver(f, prior.items)); }
      return Many(0, prior.items);
    }
    if f.ltype.Submessage? {
      var nested := MessageDefaults(f.sub, prior.v.slots);
      return One(f.htype.Required? || f.sizeOffset == 0, Msg(nested));
    }
    return One(f.htype.Required? || f.sizeOffset == 0, f.dflt);
  }

  lemma InitialScalars(fields: seq<Field>, prior: seq<Slot>)
    requires WellFormed(fields) && Typed(fields, prior)
    ensures |Defaults(fields, prior)| == |prior| == |fields|
    ensures forall j | 0 <= j < |fields| && !fields[j].ltype.Submessage? ::
              fields[j].htype.Required? || fields[j].htype.Optional? ==>
                Defaults(fields, prior)[j]
                == One(fields[j].htype.Required? || fields[j].sizeOffset == 0, fields[j].dflt)
  {
    hide WellFormed, StoredOver;
    forall j | 0 <= j < |fields| && !fields[j].ltype.Submessage?
      ensures fields[j].htype.Required? || fields[j].htype.Optional? ==>
                Defaults(fields, prior)[j]
                == One(fields[j].htype.Required? || fields[j].sizeOffset == 0, fields[j].dflt)
    {
      DefaultsAt(fields, prior, j);
    }
  }

  /** pb_message_set_to_defaults, over whatever the struct held before */
  method MessageDefaults(fields: seq<Field>, prior: seq<Slot>) returns (slots: seq<Slot>)
    requires WellFormed(fields) && Typed(fields, prior)
    ensures slots == Defaults(fields, prior)
    ensures |slots| == |fields|
    ensures forall j | 0 <= j < |fields| && !fields[j].ltype.Submessage? ::
              fields[j].htype.Required? || fields[j].htype.Optional? ==>
                slots[j] == One(fields[j].htype.Required? || fields[j].sizeOffset == 0, fields[j].dflt)
    decreases fields, 1
  {
    hide WellFormed, WellFormedField, TypedSlot, TypedValue, Defaults, DefaultSlot, LaidOut, LayoutOf;
    LaidOutSomehow(fields);
    InitialScalars(fields, prior);
    var iter := new FieldIter();
    var more := iter.Begin(fields, 0, LayoutOf(fields));
    slots := [];
    while more
      invariant iter.Valid() && fresh(iter) && iter.start == fields
      invariant |slots| == if more then iter.pos else |fields|
      invariant more ==> iter.pos < |fields|
      invariant |Defaults(fields, prior)| == |prior| == |fields|
      invariant forall j | 0 <= j < |slots| :: slots[j] == Defaults(fields, prior)[j]
      decreases |fields| - |slots|
    {
      DefaultsAt(fields, prior, iter.pos);
      var slot := FieldDefault(fields, iter.pos, prior[iter.pos]);
      slots := slots + [slot];
      more := iter.Next();
    }
  }

  /** What an item holds before it is decoded, given the memory it lies in. */
  method InitialValue(f: Field, prior: Value) returns (v: Value)
    requires WellFormedField(f) && TypedValue(f, prior)
    ensures v == DefaultValue(f, prior)
  {
    v := f.dflt;
    if f.ltype.Submessage? {
      var nested := MessageDefaults(f.sub, prior.slots);
      v := Msg(nested);
    }
  }

  // ---------------------------------------------------------------- scalars

  /** C's conversion of an integer to a signed w-byte type. */
  function CastSigned(n: int, w: nat): int {
    (n + HalfRange(w)) % (2 * HalfRange(w)) - HalfRange(w)
  }

  function CastUnsigned(n: int, w: nat): int {
    n % (2 * HalfRange(w))
  }

  /** A cast keeps the value exactly when it fits the width. */
  lemma CastKeeps(n: int, w: nat)
    ensures CastSigned(n, w) == n <==> FitsSigned(n, w)
    ensures CastUnsigned(n, w) == n <==> FitsUnsigned(n, w)
  {
    var m := 2 * HalfRange(w);
    ModSelf(n + HalfRange(w), m);
    ModSelf(n, m);
  }

  lemma ModSelf(n: int, m: nat)
    requires m > 0
    ensures n % m == n <==> 0 <= n < m
  {
    if 0 <= n < m { ModUnique(n, 0, n, m); }
  }

  method DecodeInteger(s: InStream, f: Field) returns (ok: bool, v: Value)
    requires s.Valid() && WellFormedField(f) && (f.ltype.Varint? || f.ltype.UVarint? || f.ltype.SVarint?)
    modifies s
    ensures s.Valid() && s.Limit() == old(s.Limit())
    ensures ok <==> DecScalar(f, old(s.Rest())).Done?
    ensures ok ==> v == DecScalar(f, old(s.Rest())).val && s.Rest() == DecScalar(f, old(s.Rest())).rest
  {
    hide Varint64;
    var u;
    v := Int(0);
    ok, u := s.DecodeVarint64();
    if !ok { return; }
    Varint64InRange(old(s.Rest()));
    var value;
    if f.ltype.UVarint? {
      value := u;
    } else if f.ltype.SVarint? {
      value := UnZigZag(u);
    } else {
      value := SignedFromWord(u, f.dataSize);
    }
    if !IntWidth(f.dataSize) { return false, v; }
    var clamped := if f.ltype.UVarint? then CastUnsigned(value, f.dataSize) else CastSigned(value, f.dataSize);
    CastKeeps(value, f.dataSize);
    if clamped != value { return false, v; }
    return true, Int(clamped);
  }

  method DecodeBytes(s: InStream, f: Field) returns (ok: bool, v: Value)
    requires s.Valid() && WellFormedField(f) && f.ltype.Bytes?
    modifies s
    ensures s.Valid() && s.Limit() == old(s.Limit())
    ensures ok <==> DecScalar(f, old(s.Rest())).Done?
    ensures ok ==> v == DecScalar(f, old(s.Rest())).val && s.Rest() == DecScalar(f, old(s.Rest())).rest
  {
    hide Varint32;
    var size, data;
    v := Blob([]);
    ok, size := s.DecodeVarint32();
    if !ok { return; }
    if size > PB_SIZE_MAX { return false, v; }
    if size + BYTES_HEADER > f.dataSize { return false, v; }
    ok, data := s.Read(size);
    v := Blob(data);
  }

  /** The slot needs one more byte than the string, for the terminator; the sum is 32 bits wide. */
  method DecodeString(s: InStream, f: Field) returns (ok: bool, v: Value)
    requires s.Valid() && WellFormedField(f) && f.ltype.String?
    modifies s
    ensures s.Valid() && s.Limit() == old(s.Limit())
    ensures ok <==> DecScalar(f, old(s.Rest())).Done?
    ensures ok ==> v == DecScalar(f, old(s.Rest())).val && s.Rest() == DecScalar(f, old(s.Rest())).rest
  {
    hide Varint32;
    var size, data;
    v := Blob([]);
    ok, size := s.DecodeVarint32();
    if !ok { return; }
    var allocSize := (size + 1) % TWO_32;
    if allocSize < size { return false, v; }
    if allocSize > f.dataSize { return false, v; }
    ok, data := s.Read(size);
    v := Blob(data);
  }

  method DecodeFixedLengthBytes(s: InStream, f: Field) returns (ok: bool, v: Value)
    requires s.Valid() && WellFormedField(f) && f.ltype.FixedLengthBytes?
    modifies s
    ensures s.Valid() && s.Limit() == old(s.Limit())
    ensures ok <==> DecScalar(f, old(s.Rest())).Done?
    ensures ok ==> v == DecScalar(f, old(s.Rest())).val && s.Rest() == DecScalar(f, old(s.Rest())).rest
  {
    hide Varint32;
    var size, data;
    v := Blob([]);
    ok, size := s.DecodeVarint32();
    if !ok { return; }
    if size > PB_SIZE_MAX { return false, v; }
    if size == 0 {
      return true, Blob(Zeros(f.dataSize));
    }
    if size != f.dataSize { return false, v; }
    ok, data := s.Read(f.dataSize);
    v := Blob(data);
  }

  method DecodeScalar(s: InStream, f: Field) returns (ok: bool, v: Value)
    requires s.Valid() && WellFormedField(f) && !f.ltype.Submessage?
    modifies s
    ensures s.Valid() && s.Limit() == old(s.Limit())
    ensures ok <==> DecScalar(f, old(s.Rest())).Done?
    ensures ok ==> v == DecScalar(f, old(s.Rest())).val && s.Rest() == DecScalar(f, old(s.Rest())).rest
  {
    hide Varint32, ReadFixed;
    if f.ltype.Bool? {
      var u;
      ok, u := s.DecodeVarint32();
      v := Int(if u != 0 then 1 else 0);
    } else if f.ltype.Fixed32? {
      var u;
      ok, u := s.DecodeFixed(4);
      v := Int(u);
    } else if f.ltype.Fixed64? {
      var u;
      ok, u := s.DecodeFixed(8);
      v := Int(u);
    } else if f.ltype.Bytes? {
      ok, v := DecodeBytes(s, f);
    } else if f.ltype.String? {
      ok, v := DecodeString(s, f);
    } else if f.ltype.FixedLengthBytes? {
      ok, v := DecodeFixedLengthBytes(s, f);
    } else {
      ok, v := DecodeInteger(s, f);
    }
  }

  // ------------------------------------------------------------ submessages

  /** An array entry is set to defaults over its memory first, anything else is merged into. */
  function StartValue(f: Field, v: Value): (r: Value)
    requires WellFormedField(f) && TypedValue(f, v)
    ensures TypedValue(f, r)
  {
    if f.htype.Repeated? then DefaultValue(f, v) else v
  }

  /** One item of a field, decoded into the given memory. */
  method DecodeValue(s: InStream, f: Field, memory: Value) returns (ok: bool, v: Value)
    requires s.Valid() && WellFormedField(f) && TypedValue(f, memory)
    modifies s
    ensures s.Valid() && s.Limit() <= old(s.Limit())
    ensures var r := DecValue(f, old(s.Rest()), StartValue(f, memory));
            && (ok <==> r.Done?)
            && (ok ==> s.Limit() == old(s.Limit()) && v == r.val && s.Rest() == r.rest)
    decreases s.bytesLeft, 1
  {
    hide WellFormed, Typed, DecScalar, DecMsg, ReadDelimited, Defaults;
    if f.ltype.Submessage? {
      var nested := new Struct(memory.slots);
      ok := DecodeSubmessage(s, f, nested);
      v := Msg(nested.slots);
    } else {
      ok, v := DecodeScalar(s, f);
    }
  }

  /** Decodes the payload in a substream; its unread rest is skipped when the substream closes. */
  method DecodeSubmessage(s: InStream, f: Field, dest: Struct) returns (ok: bool)
    requires s.Valid() && WellFormedField(f) && f.ltype.Submessage? && Typed(f.sub, dest.slots)
    modifies s, dest
    ensures s.Valid() && s.Limit() <= old(s.Limit())
    ensures var r := DecValue(f, old(s.Rest()), StartValue(f, Msg(old(dest.slots))));
            && (ok <==> r.Done?)
            && (ok ==> s.Limit() == old(s.Limit()) && Msg(dest.slots) == r.val && s.Rest() == r.rest)
    decreases s.bytesLeft, 0
  {
    hide WellFormed, Typed, DecScalar, DecMsg, ReadDelimited, Defaults;
    var made, sub := s.MakeStringSubstream();
    if !made { return false; }
    var status;
    if f.htype.Repeated? {
      status := Decode(sub, f.sub, dest);
    } else {
      status := DecodeNoinit(sub, f.sub, dest);
    }
    ok := s.CloseStringSubstream(sub);
    if !ok { return; }
    return status;
  }

  // ----------------------------------------------------------------- fields

  /** The cursor that corresponds to the decoder's variables. */
  ghost predicate Mirrors(c: Cursor, fields: seq<Field>, slots: seq<Slot>, counter: nat) {
    CursorOk(fields, c) && c.slots == slots && c.fixedCount == counter
  }

  /** Decodes entries into the array until the payload, the array or the decoder gives out. */
  method FillPacked(sub: InStream, f: Field, a: Fill) returns (status: bool, a': Fill)
    requires sub.Valid() && WellFormedField(f) && Packable(f.ltype) && FillOk(f, a)
    modifies sub
    ensures sub.Valid() && sub.Limit() == old(sub.Limit()) && FillOk(f, a')
    ensures var r := DecPacked(f, old(sub.Rest()), a);
            && (status && sub.bytesLeft == 0 <==> r.Done?)
            && (status && sub.bytesLeft == 0 ==> a' == r.val)
  {
    hide WellFormedField, TypedValue, DecScalar;
    status := true;
    a' := a;
    while sub.bytesLeft > 0 && a'.size < f.arraySize
      invariant sub.Valid() && sub.Limit() == old(sub.Limit()) && FillOk(f, a') && status
      invariant DecPacked(f, old(sub.Rest()), a) == DecPacked(f, sub.Rest(), a')
      decreases sub.bytesLeft
    {
      var item;
      status, item := DecodeScalar(sub, f);
      if !status { break; }
      a' := Put(f, a', item);
    }
  }

  /** A packed record: entries are decoded until the payload or the array is exhausted. */
  method DecodePackedArray(s: InStream, iter: FieldIter, dest: Struct, counter: nat, ghost c: Cursor)
    returns (ok: bool, counter': nat)
    requires s.Valid() && iter.Valid() && WellFormed(iter.start) && iter.pos < |iter.start|
    requires Mirrors(c, iter.start, dest.slots, counter)
    requires var f := iter.start[iter.pos]; f.htype.Repeated? && Packable(f.ltype)
    requires iter.start[iter.pos].FixedCount() ==> c.fixedAt == iter.pos
    requires iter.pSize.DecoderCounter? <==> iter.start[iter.pos].FixedCount()
    modifies s, dest
    ensures s.Valid() && s.Limit() <= old(s.Limit())
    ensures var r := DecField(iter.start, iter.pos, WT_STRING, old(s.Rest()), c);
            && (ok <==> r.Done?)
            && (ok ==> && s.Limit() == old(s.Limit()) && s.Rest() == r.rest
                       && r.val == Cursor(dest.slots, c.seen, c.fixedAt, counter'))
  {
    hide WellFormed, WellFormedField, Typed, TypedSlot, TypedValue, DecScalar, ReadDelimited, DecMsg, DecValue,
         DecLoop, DecRecord;
    var fields, i := iter.start, iter.pos;
    var f := fields[i];
    FieldOk(fields, dest.slots, i);
    counter' := counter;
    var made, sub := s.MakeStringSubstream();
    if !made { return false, counter'; }
    var slot := SlotOf(fields, dest.slots, i);
    var status, a := FillPacked(sub, f, Fill(slot.items, if iter.pSize.DecoderCounter? then counter else slot.count));
    if iter.pSize.DecoderCounter? {
      counter' := a.size;
      dest.slots := dest.slots[i := Many(slot.count, a.items)];
    } else {
      dest.slots := dest.slots[i := Many(a.size, a.items)];
    }
    if sub.bytesLeft != 0 { return false, counter'; }
    ok := s.CloseStringSubstream(sub);
    if !ok { return; }
    ok := status;
  }

  /** Decodes one record of the field the iterator stands on into its slot. */
  method DecodeStaticField(s: InStream, wireType: nat, iter: FieldIter, dest: Struct, counter: nat, ghost c: Cursor)
    returns (ok: bool, counter': nat)
    requires s.Valid() && iter.Valid() && WellFormed(iter.start) && iter.pos < |iter.start|
    requires Mirrors(c, iter.start, dest.slots, counter)
    requires iter.start[iter.pos].FixedCount() ==> c.fixedAt == iter.pos
    requires iter.pSize.DecoderCounter? <==> iter.start[iter.pos].FixedCount()
    modifies s, dest
    ensures s.Valid() && s.Limit() <= old(s.Limit())
    ensures var r := DecField(iter.start, iter.pos, wireType, old(s.Rest()), c);
            && (ok <==> r.Done?)
            && (ok ==> && s.Limit() == old(s.Limit()) && s.Rest() == r.rest
                       && r.val == Cursor(dest.slots, c.seen, c.fixedAt, counter'))
    decreases s.bytesLeft, 2
  {
    hide WellFormed, WellFormedField, Typed, TypedSlot, TypedValue, DecValue, DecPacked, ReadDelimited;
    var fields, i := iter.start, iter.pos;
    var f := fields[i];
    FieldOk(fields, dest.slots, i);
    counter' := counter;
    match f.htype
    case Required =>
      ok := DecodeSingular(s, iter, dest, c);
    case Optional =>
      ok := DecodeSingular(s, iter, dest, c);
    case Repeated =>
      if wireType == WT_STRING && Packable(f.ltype) {
        ok, counter' := DecodePackedArray(s, iter, dest, counter, c);
      } else {
        ok, counter' := DecodeEntry(s, iter, dest, counter, c, wireType);
      }
    case Oneof =>
      ok := DecodeMember(s, iter, dest, c);
  }

  /** A required, optional or singular field: sets the has-flag, if there is one, and decodes in place. */
  method DecodeSingular(s: InStream, iter: FieldIter, dest: Struct, ghost c: Cursor) returns (ok: bool)
    requires s.Valid() && iter.Valid() && WellFormed(iter.start) && iter.pos < |iter.start|
    requires CursorOk(iter.start, c) && c.slots == dest.slots
    requires (iter.start[iter.pos].htype.Required? || iter.start[iter.pos].htype.Optional?) && iter.pSize.At?
    modifies s, dest
    ensures s.Valid() && s.Limit() <= old(s.Limit())
    ensures var f := iter.start[iter.pos];
            var r := DecValue(f, old(s.Rest()), BaseValue(iter.start, iter.pos, c));
            && (ok <==> r.Done?)
            && (ok ==> && s.Limit() == old(s.Limit()) && s.Rest() == r.rest
                       && dest.slots == WithValue(iter.start, iter.pos, c, r.val).slots)
    decreases s.bytesLeft, 2, 0
  {
    hide WellFormed, WellFormedField, Typed, TypedSlot, TypedValue, DecValue;
    var fields, i := iter.start, iter.pos;
    var f := fields[i];
    FieldOk(fields, dest.slots, i);
    var v;
    var base := SlotOf(fields, dest.slots, i).v;
    if f.htype.Optional? && iter.pSize != At(iter.pData) {
      dest.slots := dest.slots[i := One(true, base)];
    }
    ok, v := DecodeValue(s, f, base);
    if ok { dest.slots := dest.slots[i := One(true, v)]; }
  }

  /** A oneof member: selecting it discards the previous one, and a submessage is reset to its defaults. */
  method DecodeMember(s: InStream, iter: FieldIter, dest: Struct, ghost c: Cursor) returns (ok: bool)
    requires s.Valid() && iter.Valid() && WellFormed(iter.start) && iter.pos < |iter.start|
    requires CursorOk(iter.start, c) && c.slots == dest.slots && iter.start[iter.pos].htype.Oneof?
    modifies s, dest
    ensures s.Valid() && s.Limit() <= old(s.Limit())
    ensures var f := iter.start[iter.pos];
            var r := DecValue(f, old(s.Rest()), BaseValue(iter.start, iter.pos, c));
            && (ok <==> r.Done?)
            && (ok ==> && s.Limit() == old(s.Limit()) && s.Rest() == r.rest
                       && dest.slots == WithValue(iter.start, iter.pos, c, r.val).slots)
    decreases s.bytesLeft, 2, 0
  {
    hide WellFormed, Typed, TypedSlot, TypedValue, DecValue;
    var fields, i := iter.start, iter.pos;
    var f := fields[i];
    FieldOk(fields, dest.slots, i);
    var h := Home(fields, i);
    var zero := ZeroValue(f);
    var base := InitialValue(f, zero);
    dest.slots := dest.slots[h := Union(f.tag, base)];
    var v;
    ok, v := DecodeValue(s, f, base);
    if ok { dest.slots := dest.slots[h := Union(f.tag, v)]; }
  }

  /** One entry of an array; the count is raised before the entry is decoded. */
  method DecodeEntry(s: InStream, iter: FieldIter, dest: Struct, counter: nat, ghost c: Cursor, wireType: nat)
    returns (ok: bool, counter': nat)
    requires s.Valid() && iter.Valid() && WellFormed(iter.start) && iter.pos < |iter.start|
    requires Mirrors(c, iter.start, dest.slots, counter)
    requires var f := iter.start[iter.pos]; f.htype.Repeated? && !(wireType == WT_STRING && Packable(f.ltype))
    requires iter.start[iter.pos].FixedCount() ==> c.fixedAt == iter.pos
    requires iter.pSize.DecoderCounter? <==> iter.start[iter.pos].FixedCount()
    modifies s, dest
    ensures s.Valid() && s.Limit() <= old(s.Limit())
    ensures var r := DecField(iter.start, iter.pos, wireType, old(s.Rest()), c);
            && (ok <==> r.Done?)
            && (ok ==> && s.Limit() == old(s.Limit()) && s.Rest() == r.rest
                       && r.val == Cursor(dest.slots, c.seen, c.fixedAt, counter'))
    decreases s.bytesLeft, 2, 0
  {
    hide WellFormed, WellFormedField, Typed, TypedSlot, TypedValue, DecValue, ReadDelimited;
    var fields, i := iter.start, iter.pos;
    var f := fields[i];
    FieldOk(fields, dest.slots, i);
    counter' := counter;
    var slot := SlotOf(fields, dest.slots, i);
    var size := if iter.pSize.DecoderCounter? then counter else slot.count;
    if size >= f.arraySize { return false, counter'; }
    if iter.pSize.DecoderCounter? { counter' := counter + 1; }
    var item;
    ok, item := DecodeValue(s, f, slot.items[size]);
    if ok {
      dest.slots := dest.slots[i := Many(if f.FixedCount() then f.arraySize else size + 1, slot.items[size := item])];
    }
  }

  // --------------------------------------------------------------- messages

  /** Counts the required fields from wherever the iterator stands, by walking to the end of the
      table; the last row is counted separately. */
  method CountRequired(iter: FieldIter) returns (count: nat)
    requires iter.Valid()
    modifies iter
    ensures count == RequiredBefore(iter.start, |iter.start|)
    ensures iter.start == old(iter.start)
  {
    count := iter.requiredFieldIndex;
    var lastType := RowAt(iter.start, iter.pos).htype;
    ghost var last := iter.pos;
    var more := iter.Next();
    while more
      invariant iter.Valid() && iter.start == old(iter.start)
      invariant last <= |iter.start| && (iter.start != [] ==> last < |iter.start|)
      invariant count == RequiredBefore(iter.start, last) && lastType == RowAt(iter.start, last).htype
      invariant if more then iter.pos == last + 1 < |iter.start| else last + 1 >= |iter.start| && iter.pos == 0
      decreases |iter.start| - last
    {
      count := iter.requiredFieldIndex;
      lastType := RowAt(iter.start, iter.pos).htype;
      last := iter.pos;
      more := iter.Next();
    }
    if lastType.Required? && RowAt(iter.start, iter.pos).tag != 0 {
      count := count + 1;
    }
  }

  /** A record whose field the iterator has found: fixed-count arrays must be completed one after
      the other, required fields are marked, and the field is decoded. */
  method DecodeKnownField(s: InStream, wireType: nat, iter: FieldIter, dest: Struct, fieldsSeen: array<nat>,
                          fixedCountField: int, fixedCountSize: nat, ghost c: Cursor)
    returns (ok: bool, fixedCountField': int, fixedCountSize': nat, ghost c': Cursor)
    requires s.Valid() && iter.Valid() && WellFormed(iter.start) && iter.pos < |iter.start|
    requires Mirrors(c, iter.start, dest.slots, fixedCountSize) && c.fixedAt == fixedCountField
    requires iter.pSize.DecoderCounter? ==> fixedCountField == iter.pos
    requires fieldsSeen.Length == 2 && Tracks(fieldsSeen[..], iter.start, c.seen)
    modifies s, dest, iter, fieldsSeen
    ensures s.Valid() && s.Limit() <= old(s.Limit())
    ensures iter.Valid() && iter.start == old(iter.start) && iter.pos == old(iter.pos)
    ensures CursorOk(iter.start, c)
    ensures var i, fields := iter.pos, iter.start;
            var r := if MayEnter(fields, i, c) then DecField(fields, i, wireType, old(s.Rest()), Enter(fields, i, c))
                     else Fail;
            && (ok <==> r.Done?)
            && (ok ==> && s.Limit() == old(s.Limit()) && s.Rest() == r.rest && c' == r.val
                       && Mirrors(c', fields, dest.slots, fixedCountSize') && c'.fixedAt == fixedCountField'
                       && Tracks(fieldsSeen[..], fields, c'.seen)
                       && (iter.pSize.DecoderCounter? ==> fixedCountField' == i))
    decreases s.bytesLeft, 3
  {
    hide WellFormed, WellFormedField, Typed, TypedSlot, TypedValue, DecField, RequiredBefore, Tracks, LaidOut;
    var fields, i := iter.start, iter.pos;
    var f := fields[i];
    fixedCountField', fixedCountSize' := fixedCountField, fixedCountSize;
    c' := c;
    if f.htype.Repeated? && iter.pSize == At(iter.pData) {
      if fixedCountField' != i {
        if fixedCountField' != -1 && fixedCountSize' != fields[fixedCountField'].arraySize {
          return false, fixedCountField', fixedCountSize', c';
        }
        fixedCountField' := i;
        fixedCountSize' := 0;
      }
      iter.pSize := DecoderCounter;
    }
    if f.htype.Required? {
      MarkSeen(fieldsSeen, iter.requiredFieldIndex, fields, i, c.seen);
    }
    c' := Enter(fields, i, c);
    ok, fixedCountSize' := DecodeStaticField(s, wireType, iter, dest, fixedCountSize', c');
    c' := Cursor(dest.slots, c'.seen, c'.fixedAt, fixedCountSize');
  }

  /** In a table without extensions the search finds the one row with the tag. */
  lemma HitIsLookup(fields: seq<Field>, tag: nat)
    requires WellFormed(fields)
    ensures (exists p :: 0 <= p < |fields| && Hit(fields, tag, p)) <==> Lookup(fields, tag) < |fields|
    ensures forall p | 0 <= p < |fields| && Hit(fields, tag, p) :: p == Lookup(fields, tag)
  {
    forall p | 0 <= p < |fields| ensures Hit(fields, tag, p) <==> fields[p].tag == tag {
      assert WellFormedField(fields[p]);
    }
    forall p | 0 <= p < |fields| && Hit(fields, tag, p) ensures p == Lookup(fields, tag) {
      LookupUnique(fields, p);
    }
  }

  /** One record after its key. The terminator row of an empty table answers to tag 0 and reads a
      bool that has no place in the struct. */
  method DecodeRecord(s: InStream, wireType: nat, tag: nat, iter: FieldIter, dest: Struct, fieldsSeen: array<nat>,
                      fixedCountField: int, fixedCountSize: nat, ghost c: Cursor)
    returns (ok: bool, fixedCountField': int, fixedCountSize': nat, ghost c': Cursor)
    requires s.Valid() && iter.Valid() && WellFormed(iter.start)
    requires Mirrors(c, iter.start, dest.slots, fixedCountSize) && c.fixedAt == fixedCountField
    requires iter.pSize.DecoderCounter? ==> fixedCountField == iter.pos
    requires fieldsSeen.Length == 2 && Tracks(fieldsSeen[..], iter.start, c.seen)
    modifies s, dest, iter, fieldsSeen
    ensures s.Valid() && s.Limit() <= old(s.Limit())
    ensures iter.Valid() && iter.start == old(iter.start)
    ensures CursorOk(iter.start, c)
    ensures var fields := iter.start;
            var r := DecRecord(fields, tag, wireType, old(s.Rest()), c);
            && (ok <==> r.Done?)
            && (ok ==> && s.Limit() == old(s.Limit()) && s.Rest() == r.rest && c' == r.val
                       && Mirrors(c', fields, dest.slots, fixedCountSize') && c'.fixedAt == fixedCountField'
                       && Tracks(fieldsSeen[..], fields, c'.seen)
                       && (iter.pSize.DecoderCounter? ==> fixedCountField' == iter.pos))
    decreases s.bytesLeft, 4
  {
    hide WellFormed, WellFormedField, Typed, TypedSlot, TypedValue, DecField, RequiredBefore, Tracks, LaidOut,
         Varint32, Skip, Lookup, Hit, Continues, Home;
    var fields := iter.start;
    HitIsLookup(fields, tag);
    fixedCountField', fixedCountSize', c' := fixedCountField, fixedCountSize, c;
    if fields == [] && tag == 0 {
      var ignored;
      ok, ignored := s.DecodeVarint32();
      return;
    }
    var found, steps := iter.Find(tag);
    if !found {
      ok := s.SkipField(wireType);
      return;
    }
    ok, fixedCountField', fixedCountSize', c' :=
      DecodeKnownField(s, wireType, iter, dest, fieldsSeen, fixedCountField, fixedCountSize, c);
  }

  lemma LoopUnfolds(fields: seq<Field>, s: seq<byte>, c: Cursor)
    requires WellFormed(fields) && CursorOk(fields, c)
    ensures s == [] ==> DecLoop(fields, s, c) == Done(End(c, false), [])
    ensures s != [] ==>
              var key := Varint32(s);
              && (key.Fail? ==> DecLoop(fields, s, c) == Fail)
              && (key.Done? && key.val == 0 ==> DecLoop(fields, s, c) == Done(End(c, true), key.rest))
              && (key.Done? && key.val != 0 ==>
                    var r := DecRecord(fields, key.val / 8, key.val % 8, key.rest, c);
                    DecLoop(fields, s, c) == if r.Done? then DecLoop(fields, r.rest, r.val) else Fail)
  {
    hide Varint32, DecRecord, Typed, WellFormed;
  }

  /** The loop over records, up to the end of the bytes or a zero key. */
  method DecodeRecords(s: InStream, iter: FieldIter, dest: Struct, fieldsSeen: array<nat>)
    returns (ok: bool, fixedCountField: int, fixedCountSize: nat, ghost c: Cursor, ghost terminated: bool)
    requires s.Valid() && iter.Valid() && iter.pSize.At? && WellFormed(iter.start) && Typed(iter.start, dest.slots)
    requires fieldsSeen.Length == 2 && Tracks(fieldsSeen[..], iter.start, {})
    modifies s, dest, iter, fieldsSeen
    ensures s.Valid() && s.Limit() <= old(s.Limit())
    ensures iter.Valid() && iter.start == old(iter.start)
    ensures var r := DecLoop(iter.start, old(s.Rest()), Start(old(dest.slots)));
            && (ok <==> r.Done?)
            && (ok ==> && r == Done(End(c, terminated), s.Rest()) && s.Limit() == old(s.Limit())
                       && Mirrors(c, iter.start, dest.slots, fixedCountSize) && c.fixedAt == fixedCountField
                       && Tracks(fieldsSeen[..], iter.start, c.seen))
    decreases s.bytesLeft, 5
  {
    hide WellFormed, WellFormedField, Typed, TypedSlot, TypedValue, Varint32, DecRecord, Tracks, LaidOut,
         RequiredBefore, DecLoop, Continues, Home;
    var fields := iter.start;
    fixedCountField, fixedCountSize := -1, 0;
    c, terminated := Start(dest.slots), false;
    while s.bytesLeft > 0
      invariant s.Valid() && s.Limit() == old(s.Limit())
      invariant iter.Valid() && iter.start == fields
      invariant iter.pSize.DecoderCounter? ==> fixedCountField == iter.pos
      invariant Mirrors(c, fields, dest.slots, fixedCountSize) && c.fixedAt == fixedCountField
      invariant Tracks(fieldsSeen[..], fields, c.seen)
      invariant !terminated
      invariant DecLoop(fields, old(s.Rest()), Start(old(dest.slots))) == DecLoop(fields, s.Rest(), c)
      decreases s.bytesLeft
    {
      LoopUnfolds(fields, s.Rest(), c);
      var wireType, tag, eof;
      ok, wireType, tag, eof := s.DecodeTag();
      if !ok {
        if eof {
          terminated := true;
          ok := true;
          return;
        }
        return;
      }
      ok, fixedCountField, fixedCountSize, c :=
        DecodeRecord(s, wireType, tag, iter, dest, fieldsSeen, fixedCountField, fixedCountSize, c);
      if !ok { return; }
    }
    LoopUnfolds(fields, s.Rest(), c);
    ok := true;
  }

  /** Decodes into an existing struct, and then checks that the last fixed-count array is complete
      and that no required field is missing. */
  method DecodeNoinit(s: InStream, fields: seq<Field>, dest: Struct) returns (ok: bool)
    requires s.Valid() && WellFormed(fields) && Typed(fields, dest.slots)
    modifies s, dest
    ensures s.Valid() && s.Limit() <= old(s.Limit())
    ensures var r := DecMsg(fields, old(s.Rest()), old(dest.slots));
            && (ok <==> r.Done?)
            && (ok ==> s.Limit() == old(s.Limit()) && dest.slots == r.val && s.Rest() == r.rest)
    decreases s.bytesLeft, 6
  {
    hide WellFormed, WellFormedField, Typed, TypedSlot, TypedValue, RequiredSeen, Tracks, LaidOut, RequiredBefore,
         LayoutOf, DecLoop, Continues, Home;
    LaidOutSomehow(fields);
    NothingTracked(fields);
    var fieldsSeen := new nat[2] [0, 0];
    assert fieldsSeen[..] == [0, 0];
    var iter := new FieldIter();
    var nonempty := iter.Begin(fields, 0, LayoutOf(fields));
    ghost var c, terminated;
    var fixedCountField, fixedCountSize;
    ok, fixedCountField, fixedCountSize, c, terminated := DecodeRecords(s, iter, dest, fieldsSeen);
    if !ok { return; }
    if fixedCountField != -1 && fixedCountSize != fields[fixedCountField].arraySize {
      return false;
    }
    var requiredCount := CountRequired(iter);
    ok := AllSeen(fieldsSeen, requiredCount, fields, c.seen);
  }

  /** Decodes a message into a struct that is first set to its defaults, whatever it held. */
  method Decode(s: InStream, fields: seq<Field>, dest: Struct) returns (ok: bool)
    requires s.Valid() && WellFormed(fields) && Typed(fields, dest.slots)
    modifies s, dest
    ensures s.Valid() && s.Limit() <= old(s.Limit())
    ensures var r := DecMsg(fields, old(s.Rest()), Defaults(fields, old(dest.slots)));
            && (ok <==> r.Done?)
            && (ok ==> s.Limit() == old(s.Limit()) && dest.slots == r.val && s.Rest() == r.rest)
    decreases s.bytesLeft, 7
  {
    hide WellFormed, Typed, DecMsg;
    var defaults := MessageDefaults(fields, dest.slots);
    dest.slots := defaults;
    ok := DecodeNoinit(s, fields, dest);
  }

  // ------------------------------------------------- delimited and terminated

  /** Reads a length prefix and decodes that many bytes, merging into dest or starting from defaults. */
  method DecodeDelimited(s: InStream, fields: seq<Field>, dest: Struct, init: bool) returns (ok: bool)
    requires s.Valid() && WellFormed(fields) && Typed(fields, dest.slots)
    modifies s, dest
    ensures s.Valid() && s.Limit() <= old(s.Limit())
    ensures var d := ReadDelimited(old(s.Rest()));
            var start := if init then Defaults(fields, old(dest.slots)) else old(dest.slots);
            var r := if d.Done? then DecMsg(fields, d.val, start) else Fail;
            && (ok <==> r.Done?)
            && (ok ==> s.Limit() == old(s.Limit()) && dest.slots == r.val && s.Rest() == d.rest)
  {
    hide WellFormed, Typed, DecMsg, ReadDelimited, Defaults;
    var made, sub := s.MakeStringSubstream();
    if !made { return false; }
    var status;
    if init {
      status := Decode(sub, fields, dest);
    } else {
      status := DecodeNoinit(sub, fields, dest);
    }
    ok := s.CloseStringSubstream(sub);
    if !ok { return; }
    return status;
  }

  /** A null-terminated message ends at its zero key, which plain decoding honours as well. */
  method DecodeNullTerminated(s: InStream, fields: seq<Field>, dest: Struct) returns (ok: bool)
    requires s.Valid() && WellFormed(fields) && Typed(fields, dest.slots)
    modifies s, dest
    ensures s.Valid() && s.Limit() <= old(s.Limit())
    ensures var r := DecMsg(fields, old(s.Rest()), Defaults(fields, old(dest.slots)));
            && (ok <==> r.Done?)
            && (ok ==> s.Limit() == old(s.Limit()) && dest.slots == r.val && s.Rest() == r.rest)
  {
    ok := Decode(s, fields, dest);
  }
}
