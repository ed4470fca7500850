/** Field descriptor tables and the message structs they describe.

    A table is a flat sequence of fields, without the terminator. A struct holds one slot per
    field. Members of a union share the slot of the union's first member (its home); the slots
    of the other members are never used. */
module Descriptors {
  import opened Bits
  import opened Wire

  /** pb_size_t is 8, 16 or 32 bits wide, chosen at compile time. */
  type SizeMax = n: nat | n == 0xFF || n == 0xFFFF || n == 0xFFFF_FFFF witness 0xFF
  const PB_SIZE_MAX: SizeMax

  /** Offset of the data in a bytes array: the width of its pb_size_t length. */
  const BYTES_HEADER: nat := if PB_SIZE_MAX == 0xFF then 1 else if PB_SIZE_MAX == 0xFFFF then 2 else 4

  /** SIZE_MAX of a 32-bit or 64-bit platform. */
  type SizeTMax = n: nat | n == 0xFFFF_FFFF || n == 0xFFFF_FFFF_FFFF_FFFF witness 0xFFFF_FFFF
  const SIZE_MAX: SizeTMax

  /** What a size_t keeps of a number. */
  function SizeT(n: nat): (r: nat)
    ensures r <= SIZE_MAX && r <= n
    ensures n <= SIZE_MAX ==> r == n
  {
    n % (SIZE_MAX + 1)
  }

  const PB_MAX_REQUIRED_FIELDS: nat := 64
  const MAX_TAG: nat := 0x1FFF_FFFF

  datatype LType = Bool | Varint | UVarint | SVarint | Fixed32 | Fixed64
                 | Bytes | String | Submessage | Extension | FixedLengthBytes

  datatype AType = Static | Pointer | Callback

  datatype HType = Required | Optional | Repeated | Oneof

  /** One typed value: an integer or raw word, a byte string, or a nested struct. For a string
      the bytes are those stored before the terminator that follows them, if there is room. */
  datatype Value = Int(n: int) | Blob(b: seq<byte>) | Msg(slots: seq<Slot>)

  datatype Slot =
    | One(has: bool, v: Value)            // required, optional and proto3 singular fields
    | Many(count: nat, items: seq<Value>) // repeated fields: the count, and all of the array's memory
    | Union(which: nat, u: Value)         // oneof: the selector and the current member

  /** A row of the table. sizeOffset is zero when there is no has-flag or count; dflt is the
      initial value of a scalar field; sub is the table of a submessage. */
  datatype Field = Field(tag: nat, ltype: LType, htype: HType, atype: AType,
                         dataOffset: nat, sizeOffset: int, dataSize: nat, arraySize: nat, dflt: Value, sub: seq<Field>)
  {
    predicate FixedCount() { htype.Repeated? && sizeOffset == 0 }
    predicate Singular() { htype.Optional? && sizeOffset == 0 }
  }

  const UNSET: Slot := Union(0, Int(0))

  predicate Packable(l: LType) {
    l.Bool? || l.Varint? || l.UVarint? || l.SVarint? || l.Fixed32? || l.Fixed64?
  }

  function WireTypeOf(l: LType): nat {
    if l.Fixed32? then WT_32BIT
    else if l.Fixed64? then WT_64BIT
    else if Packable(l) then WT_VARINT
    else WT_STRING
  }

  // -------------------------------------------------------------- integers

  predicate IntWidth(w: nat) { w == 1 || w == 2 || w == 4 || w == 8 }

  /** Half the range of a w-byte integer; any other width is read as 8 bytes. */
  function HalfRange(w: nat): (h: int)
    ensures 0x80 <= h <= TWO_63
  {
    if w == 1 then 0x80 else if w == 2 then 0x8000 else if w == 4 then 0x8000_0000 else 0x8000_0000_0000_0000
  }

  predicate FitsSigned(n: int, w: nat) { -HalfRange(w) <= n < HalfRange(w) }

  predicate FitsUnsigned(n: int, w: nat) { 0 <= n < 2 * HalfRange(w) }

  // ------------------------------------------------------- tables and unions

  /** Field i lies in the same union as the field before it. */
  predicate Continues(fields: seq<Field>, i: nat)
    requires i < |fields|
  {
    i > 0 && fields[i - 1].htype.Oneof? && fields[i].htype.Oneof? && fields[i].dataOffset == PB_SIZE_MAX
  }

  /** The field whose slot holds the data of field i. */
  function Home(fields: seq<Field>, i: nat): (h: nat)
    requires i < |fields|
    ensures h <= i && !Continues(fields, h)
    ensures fields[h].htype.Oneof? == fields[i].htype.Oneof?
    ensures !fields[i].htype.Oneof? ==> h == i
  {
    if Continues(fields, i) then Home(fields, i - 1) else i
  }

  function LookupFrom(fields: seq<Field>, tag: nat, i: nat): (j: nat)
    requires i <= |fields|
    ensures i <= j <= |fields|
    ensures j < |fields| ==> fields[j].tag == tag
    ensures forall k | i <= k < j :: fields[k].tag != tag
    decreases |fields| - i
  {
    if i == |fields| || fields[i].tag == tag then i else LookupFrom(fields, tag, i + 1)
  }

  /** Index of the field with the given tag, or the table length. */
  function Lookup(fields: seq<Field>, tag: nat): (j: nat)
    ensures j <= |fields|
    ensures j < |fields| ==> fields[j].tag == tag
    ensures forall k | 0 <= k < j :: fields[k].tag != tag
  {
    LookupFrom(fields, tag, 0)
  }

  /** Number of required fields before index i. */
  function RequiredBefore(fields: seq<Field>, i: nat): nat
    requires i <= |fields|
  {
    if i == 0 then 0
    else RequiredBefore(fields, i - 1) + (if fields[i - 1].htype.Required? then 1 else 0)
  }

  predicate DistinctTags(fields: seq<Field>) {
    forall i, j | 0 <= i < j < |fields| :: fields[i].tag != fields[j].tag
  }

  lemma LookupUnique(fields: seq<Field>, i: nat)
    requires DistinctTags(fields) && i < |fields|
    ensures Lookup(fields, fields[i].tag) == i
  {
    assert Lookup(fields, fields[i].tag) <= i;
  }

  /** What the table generator guarantees of one row of a table without pointers and callbacks. */
  predicate WellFormedField(f: Field)
    decreases f
  {
    && 1 <= f.tag <= MAX_TAG && f.tag <= PB_SIZE_MAX
    && f.atype.Static? && !f.ltype.Extension?
    && f.dataSize <= PB_SIZE_MAX && f.arraySize <= PB_SIZE_MAX
    && (f.ltype.Bool? ==> f.dataSize == 1)
    && (f.ltype.Fixed32? ==> f.dataSize == 4)
    && (f.ltype.Fixed64? ==> f.dataSize == 8)
    && (f.htype.Required? ==> f.sizeOffset == 0)
    && (f.htype.Oneof? ==> f.sizeOffset != 0)
    && (if f.ltype.Submessage? then WellFormed(f.sub) else TypedValue(f, f.dflt))
  }

  predicate WellFormed(fields: seq<Field>)
    decreases fields
  {
    && DistinctTags(fields)
    && (forall i | 0 <= i < |fields| :: WellFormedField(fields[i]))
    && (forall i | 0 <= i < |fields| && Continues(fields, i) :: fields[i].sizeOffset == fields[i - 1].sizeOffset)
  }

  // ---------------------------------------------------------- typed structs

  /** The value fits the memory that the descriptor reserves for one item. */
  predicate TypedValue(f: Field, v: Value)
    decreases f, 0
  {
    match f.ltype
    case Bool => v.Int? && 0 <= v.n < 256
    case Varint => v.Int? && FitsSigned(v.n, f.dataSize)
    case UVarint => v.Int? && FitsUnsigned(v.n, f.dataSize)
    case SVarint => v.Int? && FitsSigned(v.n, f.dataSize)
    case Fixed32 => v.Int? && 0 <= v.n < TWO_32
    case Fixed64 => v.Int? && 0 <= v.n < TWO_64
    case Bytes => v.Blob? && |v.b| <= PB_SIZE_MAX
    case String => v.Blob? && |v.b| <= f.dataSize
    case FixedLengthBytes => v.Blob? && |v.b| == f.dataSize
    case Submessage => v.Msg? && Typed(f.sub, v.slots)
    case Extension => false
  }

  predicate AllTyped(f: Field, elems: seq<Value>)
    decreases f, 1
  {
    forall k | 0 <= k < |elems| :: TypedValue(f, elems[k])
  }

  /** The selector of a union names one of the members that share its home. */
  predicate Selects(fields: seq<Field>, h: nat, which: nat) {
    var j := Lookup(fields, which);
    which != 0 && j < |fields| && Home(fields, j) == h
  }

  predicate TypedSlot(fields: seq<Field>, i: nat, slot: Slot)
    requires i < |fields|
    decreases fields, 0
  {
    var f := fields[i];
    match f.htype
    case Required => slot.One? && slot.has && TypedValue(f, slot.v)
    case Optional => slot.One? && (f.sizeOffset == 0 ==> slot.has) && TypedValue(f, slot.v)
    case Repeated =>
      && slot.Many?
      && slot.count <= PB_SIZE_MAX
      && |slot.items| == f.arraySize
      && (f.FixedCount() ==> slot.count == f.arraySize)
      && AllTyped(f, slot.items)
    case Oneof =>
      if Continues(fields, i) then slot == UNSET
      else
        && slot.Union?
        && (Selects(fields, i, slot.which) ==> TypedValue(fields[Lookup(fields, slot.which)], slot.u))
  }

  predicate Typed(fields: seq<Field>, slots: seq<Slot>)
    decreases fields, 1
  {
    |slots| == |fields| && forall i | 0 <= i < |fields| :: TypedSlot(fields, i, slots[i])
  }

  lemma FieldOk(fields: seq<Field>, slots: seq<Slot>, i: nat)
    requires WellFormed(fields) && Typed(fields, slots) && i < |fields|
    ensures WellFormedField(fields[i]) && |slots| == |fields| && TypedSlot(fields, i, slots[i])
  {
  }

  lemma FieldParts(f: Field)
    requires WellFormedField(f)
    ensures 1 <= f.tag <= MAX_TAG && f.arraySize <= PB_SIZE_MAX
    ensures if f.ltype.Submessage? then WellFormed(f.sub) else TypedValue(f, f.dflt)
    ensures forall slots {:trigger Typed(f.sub, slots)} ::
              f.ltype.Submessage? && WellFormed(f.sub) && Typed(f.sub, slots) ==> TypedValue(f, Msg(slots))
  {
  }

  /** The slot in which field i keeps its data. */
  function SlotOf(fields: seq<Field>, slots: seq<Slot>, i: nat): (slot: Slot)
    requires Typed(fields, slots) && i < |fields|
    ensures var f := fields[i];
            && (f.htype.Required? || f.htype.Optional? ==>
                  slot == slots[i] && slot.One? && TypedValue(f, slot.v) && (f.sizeOffset == 0 ==> slot.has))
            && (f.htype.Repeated? ==>
                  && slot == slots[i] && slot.Many? && slot.count <= PB_SIZE_MAX
                  && |slot.items| == f.arraySize && AllTyped(f, slot.items)
                  && (f.FixedCount() ==> slot.count == f.arraySize))
            && (f.htype.Oneof? ==> slot.Union? && TypedSlot(fields, Home(fields, i), slot))
  {
    assert TypedSlot(fields, Home(fields, i), slots[Home(fields, i)]);
    slots[Home(fields, i)]
  }

  // --------------------------------------------------------------- defaults

  function Zeros(n: nat): (bs: seq<byte>)
    ensures |bs| == n
  {
    seq(n, _ => 0)
  }

  /** Cleared memory. */
  function ZeroValue(f: Field): (v: Value)
    requires WellFormedField(f)
    ensures TypedValue(f, v)
    decreases f, 0
  {
    if f.ltype.Submessage? then Msg(ZeroSlots(f.sub))
    else if f.ltype.FixedLengthBytes? then Blob(Zeros(f.dataSize))
    else if f.ltype.Bytes? || f.ltype.String? then Blob([])
    else Int(0)
  }

  function ZeroSlot(fields: seq<Field>, i: nat): (slot: Slot)
    requires i < |fields| && WellFormedField(fields[i])
    ensures TypedSlot(fields, i, slot)
    decreases fields, 0
  {
    var f := fields[i];
    match f.htype
    case Required => One(true, ZeroValue(f))
    case Optional => One(f.sizeOffset == 0, ZeroValue(f))
    case Repeated => Many(if f.FixedCount() then f.arraySize else 0, seq(f.arraySize, _ => ZeroValue(f)))
    case Oneof => UNSET
  }

  function ZeroSlots(fields: seq<Field>): (slots: seq<Slot>)
    requires WellFormed(fields)
    ensures Typed(fields, slots)
    decreases fields, 1
  {
    seq(|fields|, i requires 0 <= i < |fields| => ZeroSlot(fields, i))
  }

  /** What clearing the first n bytes makes of a value that is longer than that. For integers and
      nested structs it depends on byte order and layout, and may be anything. */
  const PARTLY_CLEARED: (Field, Value, nat) -> Value

  /** A value after the first n bytes of its memory were cleared. */
  function Cleared(f: Field, v: Value, n: nat): (r: Value)
    requires WellFormedField(f) && TypedValue(f, v)
    ensures TypedValue(f, r)
    ensures n == 0 ==> r == v
    ensures n >= f.dataSize && n > 0 ==> r == ZeroValue(f)
    ensures n > 0 && f.ltype.String? ==> r == Blob([])
    ensures n >= BYTES_HEADER && f.ltype.Bytes? ==> r == Blob([])
    ensures f.ltype.FixedLengthBytes? ==>
              forall j | 0 <= j < f.dataSize :: r.b[j] == if j < n then 0 else v.b[j]
  {
    if n == 0 || v == ZeroValue(f) then v
    else if n >= f.dataSize then ZeroValue(f)
    else if f.ltype.String? || (f.ltype.Bytes? && n >= BYTES_HEADER) then Blob([])
    else if f.ltype.FixedLengthBytes? then Blob(Zeros(n) + v.b[n..])
    else if TypedValue(f, PARTLY_CLEARED(f, v, n)) then PARTLY_CLEARED(f, v, n)
    else v
  }

  /** A fixed-count array has no count of its own: resetting the count stores a zero pb_size_t over
      the start of its first entry, or over the first few, and leaves the rest as it was. */
  function StoredOver(f: Field, items: seq<Value>): (r: seq<Value>)
    requires WellFormedField(f) && AllTyped(f, items)
    ensures |r| == |items| && AllTyped(f, r)
    ensures forall k | 0 <= k < |items| && k * f.dataSize >= BYTES_HEADER :: r[k] == items[k]
    ensures forall k | 0 <= k < |items| && k * f.dataSize + f.dataSize <= BYTES_HEADER :: r[k] == ZeroValue(f)
    ensures forall k | 0 <= k < |items| && k * f.dataSize < BYTES_HEADER ::
              r[k] == Cleared(f, items[k], BYTES_HEADER - k * f.dataSize)
  {
    seq(|items|, k requires 0 <= k < |items| =>
      Cleared(f, items[k], if k * f.dataSize < BYTES_HEADER then BYTES_HEADER - k * f.dataSize else 0))
  }

  /** A value before decoding: its declared default, or a submessage's defaults. */
  function DefaultValue(f: Field, prior: Value): (v: Value)
    requires WellFormedField(f) && TypedValue(f, prior)
    ensures TypedValue(f, v)
    decreases f, 0
  {
    if f.ltype.Submessage? then Msg(Defaults(f.sub, prior.slots)) else f.dflt
  }

  /** Sets one field to its default. The memory of an array keeps what it held before. */
  function DefaultSlot(fields: seq<Field>, i: nat, prior: Slot): (slot: Slot)
    requires i < |fields| && WellFormedField(fields[i]) && TypedSlot(fields, i, prior)
    ensures TypedSlot(fields, i, slot)
    decreases fields, 0
  {
    var f := fields[i];
    match f.htype
    case Required => One(true, DefaultValue(f, prior.v))
    case Optional => One(f.sizeOffset == 0, DefaultValue(f, prior.v))
    case Repeated =>
      if f.FixedCount() then Many(f.arraySize, StoredOver(f, prior.items)) else Many(0, prior.items)
    case Oneof => UNSET
  }

  function Defaults(fields: seq<Field>, prior: seq<Slot>): (slots: seq<Slot>)
    requires WellFormed(fields) && Typed(fields, prior)
    ensures Typed(fields, slots)
    decreases fields, 1
  {
    seq(|fields|, i requires 0 <= i < |fields| => DefaultSlot(fields, i, prior[i]))
  }

  lemma DefaultsAt(fields: seq<Field>, prior: seq<Slot>, i: nat)
    requires WellFormed(fields) && Typed(fields, prior) && i < |fields|
    ensures WellFormedField(fields[i]) && |prior| == |fields| && TypedSlot(fields, i, prior[i])
    ensures |Defaults(fields, prior)| == |fields| && Defaults(fields, prior)[i] == DefaultSlot(fields, i, prior[i])
  {
    hide WellFormedField, TypedSlot, DefaultSlot;
  }

  // ------------------------------------------------------------ slot updates

  /** Storing a typed slot at its home keeps the struct typed. */
  lemma TypedUpdate(fields: seq<Field>, slots: seq<Slot>, h: nat, slot: Slot)
    requires Typed(fields, slots) && h < |fields| && TypedSlot(fields, h, slot)
    ensures Typed(fields, slots[h := slot])
  {
    var slots' := slots[h := slot];
    forall i | 0 <= i < |fields| ensures TypedSlot(fields, i, slots'[i]) {
      if i != h { assert slots'[i] == slots[i]; }
    }
  }

  lemma SelectsMember(fields: seq<Field>, i: nat)
    requires WellFormed(fields) && i < |fields|
    ensures Lookup(fields, fields[i].tag) == i
    ensures Selects(fields, Home(fields, i), fields[i].tag)
  {
    LookupUnique(fields, i);
  }
}
