/** What the decoder makes of a byte sequence, as pure functions: values, array filling, the
    record loop with its cursor, and the checks at the end of a message. */
module Decoding {
  import opened Bits
  import opened Wire
  import opened Descriptors

  // ---------------------------------------------------------------- values

  /** The signed number a varint field of the given width takes from a 64-bit word: fields
      narrower than 8 bytes look at the low 32 bits only. */
  function SignedFromWord(u: nat, width: nat): int
    requires u < TWO_64
  {
    if width == 8 then AsSigned(u)
    else if u % TWO_32 < TWO_31 then u % TWO_32 else u % TWO_32 - TWO_32
  }

  function Checked(n: int, fits: bool, rest: seq<byte>): Parse<Value> {
    if fits then Done(Int(n), rest) else Fail
  }

  function DecScalar(f: Field, s: seq<byte>): (r: Parse<Value>)
    requires WellFormedField(f) && !f.ltype.Submessage?
    ensures r.Done? ==> TypedValue(f, r.val) && |r.rest| < |s|
  {
    match f.ltype
    case Bool => (
      match Varint32(s)
      case Fail => Fail
      case Done(u, rest) => Done(Int(if u != 0 then 1 else 0), rest))
    case Varint => (
      match Varint64(s)
      case Fail => Fail
      case Done(u, rest) =>
        Varint64InRange(s);
        var n := SignedFromWord(u, f.dataSize);
        Checked(n, IntWidth(f.dataSize) && FitsSigned(n, f.dataSize), rest))
    case UVarint => (
      match Varint64(s)
      case Fail => Fail
      case Done(u, rest) => Checked(u, IntWidth(f.dataSize) && FitsUnsigned(u, f.dataSize), rest))
    case SVarint => (
      match Varint64(s)
      case Fail => Fail
      case Done(u, rest) =>
        Varint64InRange(s);
        var n := UnZigZag(u);
        Checked(n, IntWidth(f.dataSize) && FitsSigned(n, f.dataSize), rest))
    case Fixed32 => FixedInRange(s, 4); DecFixed(s, 4)
    case Fixed64 => FixedInRange(s, 8); DecFixed(s, 8)
    case _ => (
      match ReadDelimited(s)
      case Fail => Fail
      case Done(b, rest) => DecBlob(f, b, rest))
  }

  function DecFixed(s: seq<byte>, n: nat): Parse<Value> {
    match ReadFixed(s, n)
    case Fail => Fail
    case Done(u, rest) => Done(Int(u), rest)
  }

  /** Length checks of the byte-string types; an empty fixed-length string means all zeros. */
  function DecBlob(f: Field, b: seq<byte>, rest: seq<byte>): Parse<Value> {
    if f.ltype.Bytes? && |b| <= PB_SIZE_MAX && |b| + BYTES_HEADER <= f.dataSize then Done(Blob(b), rest)
    else if f.ltype.String? && |b| + 1 <= f.dataSize then Done(Blob(b), rest)
    else if f.ltype.FixedLengthBytes? && b == [] then Done(Blob(Zeros(f.dataSize)), rest)
    else if f.ltype.FixedLengthBytes? && |b| == f.dataSize then Done(Blob(b), rest)
    else Fail
  }

  lemma Varint64InRange(s: seq<byte>)
    requires Varint64(s).Done?
    ensures Varint64(s).val < TWO_64
  {
    Varint64Denotes(s);
  }

  lemma {:induction false} LittleEndianBound(bs: seq<byte>)
    ensures FromLittleEndian(bs) < Pow2(8 * |bs|)
  {
    if bs != [] {
      LittleEndianBound(bs[1..]);
      Pow2Seven(8 * |bs[1..]|);
      assert Pow2(8 * |bs|) == 2 * Pow2(8 * |bs[1..]| + 7);
    }
  }

  lemma FixedInRange(s: seq<byte>, n: nat)
    requires n == 4 || n == 8
    ensures ReadFixed(s, n).Done? ==> ReadFixed(s, n).val < (if n == 4 then TWO_32 else TWO_64)
  {
    if |s| >= n {
      LittleEndianBound(s[..n]);
      Pow2Word();
      Pow2Long();
    }
  }

  // ---------------------------------------------------------------- arrays

  /** An array being filled: its memory and the position of the next entry. */
  datatype Fill = Fill(items: seq<Value>, size: nat)

  predicate FillOk(f: Field, a: Fill) {
    && AllTyped(f, a.items) && |a.items| == f.arraySize && a.size <= PB_SIZE_MAX
    && (f.FixedCount() ==> a.size <= f.arraySize)
  }

  function Put(f: Field, a: Fill, v: Value): (a': Fill)
    requires WellFormedField(f) && FillOk(f, a) && a.size < f.arraySize && TypedValue(f, v)
    ensures FillOk(f, a') && a'.size == a.size + 1
  {
    Fill(a.items[a.size := v], a.size + 1)
  }

  /** Entries of a packed record go in one after the other; leftover bytes mean overflow. */
  function DecPacked(f: Field, body: seq<byte>, a: Fill): (r: Parse<Fill>)
    requires WellFormedField(f) && Packable(f.ltype) && FillOk(f, a)
    ensures r.Done? ==> FillOk(f, r.val)
    decreases |body|
  {
    if body == [] then Done(a, [])
    else if a.size >= f.arraySize then Fail
    else
      match DecScalar(f, body)
      case Fail => Fail
      case Done(v, rest) => DecPacked(f, rest, Put(f, a, v))
  }

  // ---------------------------------------------------------------- cursor

  /** State of the record loop: the struct, the required fields met so far, and which
      fixed-count array is being filled (-1 for none) up to which entry. */
  datatype Cursor = Cursor(slots: seq<Slot>, seen: set<nat>, fixedAt: int, fixedCount: nat)

  predicate CursorOk(fields: seq<Field>, c: Cursor) {
    && Typed(fields, c.slots)
    && -1 <= c.fixedAt < |fields|
    && (c.fixedAt == -1 ==> c.fixedCount == 0)
    && (c.fixedAt >= 0 ==> fields[c.fixedAt].FixedCount() && c.fixedCount <= fields[c.fixedAt].arraySize)
  }

  function Start(slots: seq<Slot>): Cursor { Cursor(slots, {}, -1, 0) }

  predicate FixedFull(fields: seq<Field>, c: Cursor)
    requires CursorOk(fields, c)
  {
    c.fixedAt >= 0 ==> c.fixedCount == fields[c.fixedAt].arraySize
  }

  /** A fixed-count array can be entered only when the previous one is full. */
  predicate MayEnter(fields: seq<Field>, i: nat, c: Cursor)
    requires CursorOk(fields, c) && i < |fields|
  {
    fields[i].FixedCount() && c.fixedAt != i ==> FixedFull(fields, c)
  }

  function Enter(fields: seq<Field>, i: nat, c: Cursor): (c': Cursor)
    requires CursorOk(fields, c) && i < |fields|
    ensures CursorOk(fields, c') && c'.slots == c.slots
    ensures fields[i].FixedCount() ==> c'.fixedAt == i
  {
    var seen := if fields[i].htype.Required? then c.seen + {i} else c.seen;
    if fields[i].FixedCount() && c.fixedAt != i then Cursor(c.slots, seen, i, 0)
    else c.(seen := seen)
  }

  function FillAt(fields: seq<Field>, i: nat, c: Cursor): (a: Fill)
    requires CursorOk(fields, c) && i < |fields| && fields[i].htype.Repeated?
    requires fields[i].FixedCount() ==> c.fixedAt == i
    ensures FillOk(fields[i], a)
  {
    var slot := SlotOf(fields, c.slots, i);
    Fill(slot.items, if fields[i].FixedCount() then c.fixedCount else slot.count)
  }

  function WithFill(fields: seq<Field>, i: nat, c: Cursor, a: Fill): (c': Cursor)
    requires WellFormed(fields) && CursorOk(fields, c) && i < |fields| && fields[i].htype.Repeated?
    requires fields[i].FixedCount() ==> c.fixedAt == i
    requires FillOk(fields[i], a)
    ensures CursorOk(fields, c')
  {
    assert WellFormedField(fields[i]);
    var slot := Many(if fields[i].FixedCount() then fields[i].arraySize else a.size, a.items);
    TypedUpdate(fields, c.slots, i, slot);
    c.(slots := c.slots[i := slot],
       fixedCount := if fields[i].FixedCount() then a.size else c.fixedCount)
  }

  /** The slot a decoded singular value or union member is stored as. */
  function Stored(f: Field, v: Value): Slot {
    if f.htype.Oneof? then Union(f.tag, v) else One(true, v)
  }

  function WithValue(fields: seq<Field>, i: nat, c: Cursor, v: Value): (c': Cursor)
    requires WellFormed(fields) && CursorOk(fields, c) && i < |fields| && !fields[i].htype.Repeated?
    requires TypedValue(fields[i], v)
    ensures CursorOk(fields, c')
  {
    SelectsMember(fields, i);
    TypedUpdate(fields, c.slots, Home(fields, i), Stored(fields[i], v));
    c.(slots := c.slots[Home(fields, i) := Stored(fields[i], v)])
  }

  // ------------------------------------------------------- end of a message

  /** Field i is one of the required fields whose presence is tracked. */
  predicate Tracked(fields: seq<Field>, i: nat)
    requires i < |fields|
  {
    fields[i].htype.Required? && RequiredBefore(fields, i) < PB_MAX_REQUIRED_FIELDS
  }

  predicate RequiredSeen(fields: seq<Field>, seen: set<nat>) {
    forall i | 0 <= i < |fields| && Tracked(fields, i) :: i in seen
  }

  predicate Complete(fields: seq<Field>, c: Cursor)
    requires CursorOk(fields, c)
  {
    FixedFull(fields, c) && RequiredSeen(fields, c.seen)
  }

  // ------------------------------------------------------------ record loop

  /** Where the loop stopped: at the end of the bytes or at a zero key. */
  datatype End = End(c: Cursor, terminated: bool)

  /** One item of field i, starting from the given base value. */
  function DecValue(f: Field, s: seq<byte>, base: Value): (r: Parse<Value>)
    requires WellFormedField(f) && TypedValue(f, base)
    ensures r.Done? ==> TypedValue(f, r.val) && |r.rest| < |s|
    decreases |s|, 0
  {
    if !f.ltype.Submessage? then DecScalar(f, s)
    else
      match ReadDelimited(s)
      case Fail => Fail
      case Done(body, rest) =>
        match DecMsg(f.sub, body, base.slots)
        case Fail => Fail
        case Done(slots, _) => Done(Msg(slots), rest)
  }

  /** What an item holds before it is decoded. A required or optional submessage is merged into, a
      union is cleared, and an array entry is set to defaults over whatever its memory held. */
  function BaseValue(fields: seq<Field>, i: nat, c: Cursor): (v: Value)
    requires WellFormed(fields) && CursorOk(fields, c) && i < |fields|
    requires fields[i].FixedCount() ==> c.fixedAt == i
    requires fields[i].htype.Repeated? ==> FillAt(fields, i, c).size < fields[i].arraySize
    ensures TypedValue(fields[i], v)
  {
    var f := fields[i];
    match f.htype
    case Required => SlotOf(fields, c.slots, i).v
    case Optional => SlotOf(fields, c.slots, i).v
    case Repeated => var a := FillAt(fields, i, c); DefaultValue(f, a.items[a.size])
    case Oneof => DefaultValue(f, ZeroValue(f))
  }

  function DecField(fields: seq<Field>, i: nat, wireType: nat, s: seq<byte>, c: Cursor): (r: Parse<Cursor>)
    requires WellFormed(fields) && CursorOk(fields, c) && i < |fields|
    requires fields[i].FixedCount() ==> c.fixedAt == i
    ensures r.Done? ==> CursorOk(fields, r.val) && |r.rest| < |s|
    decreases |s|, 1
  {
    var f := fields[i];
    if f.htype.Repeated? && wireType == WT_STRING && Packable(f.ltype) then
      match ReadDelimited(s)
      case Fail => Fail
      case Done(body, rest) => (
        match DecPacked(f, body, FillAt(fields, i, c))
        case Fail => Fail
        case Done(a, _) => Done(WithFill(fields, i, c, a), rest))
    else if f.htype.Repeated? && FillAt(fields, i, c).size >= f.arraySize then Fail
    else
      match DecValue(f, s, BaseValue(fields, i, c))
      case Fail => Fail
      case Done(v, rest) =>
        if f.htype.Repeated? then Done(WithFill(fields, i, c, Put(f, FillAt(fields, i, c), v)), rest)
        else Done(WithValue(fields, i, c, v), rest)
  }

  /** An empty table has only its terminator, which a zero tag matches as a required bool. */
  function DecTerminator(s: seq<byte>, c: Cursor): (r: Parse<Cursor>)
    ensures r.Done? ==> r.val == c && |r.rest| < |s|
  {
    match Varint32(s)
    case Fail => Fail
    case Done(_, rest) => Done(c, rest)
  }

  /** One record after its key: an unknown tag is skipped. */
  function DecRecord(fields: seq<Field>, tag: nat, wireType: nat, s: seq<byte>, c: Cursor): (r: Parse<Cursor>)
    requires WellFormed(fields) && CursorOk(fields, c)
    ensures r.Done? ==> CursorOk(fields, r.val) && |r.rest| < |s|
    decreases |s|, 2
  {
    var i := Lookup(fields, tag);
    if fields == [] && tag == 0 then DecTerminator(s, c)
    else if i == |fields| then
      match Skip(wireType, s)
      case Fail => Fail
      case Done(_, rest) => Done(c, rest)
    else if !MayEnter(fields, i, c) then Fail
    else DecField(fields, i, wireType, s, Enter(fields, i, c))
  }

  function DecLoop(fields: seq<Field>, s: seq<byte>, c: Cursor): (r: Parse<End>)
    requires WellFormed(fields) && CursorOk(fields, c)
    ensures r.Done? ==> CursorOk(fields, r.val.c)
    decreases |s|, 3
  {
    if s == [] then Done(End(c, false), [])
    else
      match Varint32(s)
      case Fail => Fail
      case Done(key, tail) =>
        if key == 0 then Done(End(c, true), tail)
        else
          match DecRecord(fields, key / 8, key % 8, tail, c)
          case Fail => Fail
          case Done(c', rest) => DecLoop(fields, rest, c')
  }

  /** Decoding a message into an existing struct. */
  function DecMsg(fields: seq<Field>, s: seq<byte>, slots: seq<Slot>): (r: Parse<seq<Slot>>)
    requires WellFormed(fields) && Typed(fields, slots)
    ensures r.Done? ==> Typed(fields, r.val)
    decreases |s|, 4
  {
    match DecLoop(fields, s, Start(slots))
    case Fail => Fail
    case Done(end, rest) => if Complete(fields, end.c) then Done(end.c.slots, rest) else Fail
  }
}
