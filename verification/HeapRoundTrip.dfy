/** What the encoder sends, the decoder with allocation rebuilds: exactly the members that were present are
    allocated, and the counts are those that were sent. */
module HeapRoundTrip {
  import opened Bits
  import opened Wire
  import opened Descriptors
  import opened Encoding
  import opened Decoding
  import opened Canonical
  import opened Arrays
  import opened RoundTrip
  import opened OutStreams
  import opened HeapModel
  import opened HeapAllocation
  import opened HeapShapes
  import opened HeapReading

  // ---------------------------------------------------------------- two tables

  /** Row f of the receiver and row g of the sender describe the same field, which the receiver may keep
      behind a pointer. A pointer array of PB_SIZE_MAX items must not exceed a size_t. */
  predicate TwinField(f: Field, g: Field)
    decreases f
  {
    && f.tag == g.tag && f.ltype == g.ltype && f.htype == g.htype && g.atype.Static?
    && (f.dataOffset == PB_SIZE_MAX <==> g.dataOffset == PB_SIZE_MAX)
    && (f.FixedCount() <==> g.FixedCount())
    && (f.atype.Static? && f.htype.Repeated? ==> f.arraySize == g.arraySize)
    && (f.atype.Static? || !StringLike(f.ltype) ==> f.dataSize == g.dataSize || f.ltype.Submessage?)
    && (f.atype.Pointer? && !(StringLike(f.ltype) && !f.htype.Repeated?) ==>
          f.dataSize > 0 && f.dataSize * PB_SIZE_MAX <= SIZE_MAX)
    && (f.ltype.Submessage? ==> Twins(f.sub, g.sub))
  }

  predicate Twins(hf: seq<Field>, sf: seq<Field>)
    decreases hf
  {
    |hf| == |sf| && forall i | 0 <= i < |hf| :: TwinField(hf[i], sf[i])
  }

  /** That is never in question where either a pb_size_t is narrower than 32 bits or a size_t wider. */
  lemma AlwaysAmple(f: Field)
    requires HeapField(f) && (PB_SIZE_MAX < 0xFFFF_FFFF || SIZE_MAX > 0xFFFF_FFFF)
    ensures f.dataSize * PB_SIZE_MAX <= SIZE_MAX
  {
    ProductMonotone(PB_SIZE_MAX, f.dataSize, PB_SIZE_MAX);
    assert f.dataSize * PB_SIZE_MAX == PB_SIZE_MAX * f.dataSize;
  }

  /** Static submessages are there, alone or as the entries of arrays, at every depth. */
  predicate Framed(fields: seq<Field>, cells: seq<Cell>)
    decreases fields
  {
    |cells| == |fields| && forall i | 0 <= i < |fields| :: FramedCell(fields[i], cells[i])
  }

  predicate FramedCell(f: Field, c: Cell)
    decreases f
  {
    if !Inline(f) then true
    else if f.htype.Repeated? then
      c.NestedMany? && |c.entries| == f.arraySize
      && forall k | 0 <= k < |c.entries| :: c.entries[k].Nested? && Framed(f.sub, c.entries[k].cells)
    else c.Nested? && Framed(f.sub, c.cells)
  }

  /** Cleared memory of an allocated item. */
  function NewCells(fields: seq<Field>): (r: seq<Cell>)
    requires HeapTable(fields)
    ensures Framed(fields, r)
  {
    NewFramed(fields);
    EraseCells(ZeroCells(fields))
  }

  lemma {:induction false} NewFramed(fields: seq<Field>)
    requires HeapTable(fields)
    ensures Framed(fields, EraseCells(ZeroCells(fields)))
    decreases fields
  {
    hide HeapField;
    var r := EraseCells(ZeroCells(fields));
    forall i | 0 <= i < |fields| ensures FramedCell(fields[i], r[i]) {
      assert HeapField(fields[i]);
      NewFramedCell(fields, i);
    }
  }

  lemma {:induction false} NewFramedCell(fields: seq<Field>, i: nat)
    requires HeapTable(fields) && i < |fields| && HeapField(fields[i])
    ensures FramedCell(fields[i], EraseCell(ZeroCell(fields, i)))
    decreases fields, 0
  {
    if Inline(fields[i]) { NewFramed(fields[i].sub); }
  }

  // ------------------------------------------------------- what is rebuilt

  /** A new item in allocated memory. */
  function ItemShape(f: Field, g: Field, v: Value): Cell
    requires HeapField(f) && WellFormedField(g) && TwinField(f, g) && TypedValue(g, v)
    decreases f, 0
  {
    if f.ltype.Submessage? then Nested(Shape(f.sub, g.sub, v.slots, NewCells(f.sub)))
    else if f.htype.Repeated? && StringLike(f.ltype) then Ptr(Live(0, [Plain]))
    else Plain
  }

  /** An array that received these elements over the memory of cell p. */
  function ManyShape(f: Field, g: Field, elems: seq<Value>, p: Cell): Cell
    requires HeapField(f) && WellFormedField(g) && TwinField(f, g) && AllTyped(g, elems) && FramedCell(f, p)
    requires f.htype.Repeated? && (Inline(f) ==> |elems| <= f.arraySize)
    decreases f, 1
  {
    assert forall k | 0 <= k < |elems| :: TypedValue(g, elems[k]);
    if f.atype.Pointer? then
      if elems == [] then PtrMany(0, Null)
      else PtrMany(|elems|, Live(0, seq(|elems|, k requires 0 <= k < |elems| => ItemShape(f, g, elems[k]))))
    else if f.ltype.Submessage? then
      NestedMany(|elems|, seq(f.arraySize, k requires 0 <= k < f.arraySize =>
        if k < |elems| then Nested(Shape(f.sub, g.sub, elems[k].slots, p.entries[k].cells)) else p.entries[k]))
    else if Counted(f) then Count(|elems|)
    else Plain
  }

  function CellShape(hf: seq<Field>, sf: seq<Field>, slots: seq<Slot>, prior: seq<Cell>, h: nat): Cell
    requires HeapTable(hf) && WellFormed(sf) && Twins(hf, sf) && Typed(sf, slots) && Framed(hf, prior) && h < |hf|
    decreases hf, 0
  {
    var f, g, slot := hf[h], sf[h], SlotOf(sf, slots, h);
    assert HeapField(f) && WellFormedField(g) && TwinField(f, g) && FramedCell(f, prior[h]);
    if f.htype.Oneof? then
      if !Continues(sf, h) && Selects(sf, h, slot.which) then
        var j := Lookup(sf, slot.which);
        assert HeapField(hf[j]) && WellFormedField(sf[j]) && TwinField(hf[j], sf[j]);
        PtrUnion(slot.which, Live(0, [ItemShape(hf[j], sf[j], slot.u)]))
      else DefaultCell(hf, h, prior[h])
    else if f.htype.Repeated? then ManyShape(f, g, Entries(slot), prior[h])
    else if !Present(sf, slots, h) then DefaultCell(hf, h, prior[h])
    else if f.atype.Pointer? then Ptr(Live(0, [ItemShape(f, g, slot.v)]))
    else if f.ltype.Submessage? then Nested(Shape(f.sub, g.sub, slot.v.slots, prior[h].cells))
    else Plain
  }

  /** The struct with pointers that stands for the struct that was sent. */
  function Shape(hf: seq<Field>, sf: seq<Field>, slots: seq<Slot>, prior: seq<Cell>): (r: seq<Cell>)
    requires HeapTable(hf) && WellFormed(sf) && Twins(hf, sf) && Typed(sf, slots) && Framed(hf, prior)
    ensures |r| == |hf|
    decreases hf, 1
  {
    seq(|hf|, h requires 0 <= h < |hf| => CellShape(hf, sf, slots, prior, h))
  }

  // ---------------------------------------------------------------- values

  /** A scalar is decoded by its type and size alone. */
  lemma SameScalar(f: Field, g: Field, s: seq<byte>)
    requires WellFormedField(f) && WellFormedField(g) && f.ltype == g.ltype && f.dataSize == g.dataSize
    requires !f.ltype.Submessage?
    ensures DecScalar(f, s) == DecScalar(g, s)
  {
    hide Varint32, Varint64, ReadDelimited, ReadFixed;
  }

  lemma ScalarReads(f: Field, g: Field, v: Value, t: seq<byte>)
    requires HeapField(f) && WellFormedField(g) && TwinField(f, g) && TypedValue(g, v) && !f.ltype.Submessage?
    requires EncodableValue(g, v) && RoomValue(g, v) && f.dataSize == g.dataSize
    ensures DecScalar(View(f), EncValue(g, v) + t).Done? && DecScalar(View(f), EncValue(g, v) + t).rest == t
  {
    hide EncValue, DecScalar, WellFormedField, TypedValue, EncodableValue, RoomValue;
    ScalarRoundTrip(g, v, v, t);
    assert View(f).dataSize == f.dataSize;
    SameScalar(View(f), g, EncValue(g, v) + t);
  }

  /** A string or bytes value that would fit a static slot. */
  lemma LeafFits(f: Field, b: seq<byte>, t: seq<byte>)
    requires StringLike(f.ltype) && |b| + (if f.ltype.Bytes? then BYTES_HEADER else 1) <= PB_SIZE_MAX
    ensures ReadLeaf(f, Delimited(b) + t) == Done((), t)
  {
    hide Varint32, EncVarint;
    assert Delimited(b) + t == EncVarint(|b|) + (b + t);
    Varint32RoundTrip(|b|, b + t);
    assert (b + t)[|b|..] == t;
    SmallSum(|b|);
  }

  lemma SmallSum(n: nat)
    ensures n + BYTES_HEADER <= PB_SIZE_MAX ==> AddSize(BYTES_HEADER, n) == BYTES_HEADER + n
  {
  }

  lemma LeafReads(f: Field, g: Field, v: Value, t: seq<byte>)
    requires HeapField(f) && WellFormedField(g) && TwinField(f, g) && TypedValue(g, v) && StringLike(f.ltype)
    requires EncodableValue(g, v) && RoomValue(g, v)
    ensures ReadLeaf(f, EncValue(g, v) + t) == Done((), t)
  {
    hide ReadLeaf, Delimited;
    LeafFits(f, if f.ltype.Bytes? then v.b else CStr(v.b), t);
  }

  /** The nested message is rebuilt over any memory. */
  ghost predicate NestedReads(f: Field, g: Field, v: Value)
    requires HeapField(f) && WellFormedField(g) && TwinField(f, g) && TypedValue(g, v) && f.ltype.Submessage?
  {
    forall prior | Framed(f.sub, prior) ::
      ReadMsg(f.sub, EncMsg(g.sub, v.slots), DefaultCells(f.sub, prior))
      == Done(Shape(f.sub, g.sub, v.slots, prior), [])
  }

  /** What can be sent, and read back at every depth. */
  ghost predicate Travels(f: Field, g: Field, v: Value)
    requires HeapField(f) && WellFormedField(g) && TwinField(f, g)
  {
    && TypedValue(g, v) && SendableValue(g, v) && RoomValue(g, v)
    && (f.ltype.Submessage? ==> NestedReads(f, g, v))
  }

  lemma SubReads(f: Field, g: Field, v: Value, t: seq<byte>, cells: seq<Cell>, prior: seq<Cell>)
    requires HeapField(f) && WellFormedField(g) && TwinField(f, g) && f.ltype.Submessage? && Travels(f, g, v)
    requires Framed(f.sub, prior)
    requires DefaultCells(f.sub, prior) == if f.htype.Repeated? then DefaultCells(f.sub, cells) else cells
    ensures ReadSub(f, EncValue(g, v) + t, cells) == Done(Shape(f.sub, g.sub, v.slots, prior), t)
  {
    hide ReadDelimited, EncMsg, ReadMsg, DefaultCells, Shape, Framed, Delimited, WellFormed, Typed, HeapTable, Twins,
         SendableMsg, RoomMsg;
    var body := EncMsg(g.sub, v.slots);
    DelimitedRoundTrip(body, t);
    assert EncValue(g, v) == Delimited(body);
    assert ReadMsg(f.sub, body, DefaultCells(f.sub, prior)) == Done(Shape(f.sub, g.sub, v.slots, prior), []);
  }

  lemma {:induction false} DefaultCellTwice(fields: seq<Field>, i: nat, c: Cell)
    requires i < |fields|
    ensures DefaultCell(fields, i, DefaultCell(fields, i, c)) == DefaultCell(fields, i, c)
    decreases fields, 0
  {
    hide DefaultCells;
    if c.Nested? && Inline(fields[i]) { DefaultsTwice(fields[i].sub, c.cells); }
  }

  lemma {:induction false} DefaultsTwice(fields: seq<Field>, cells: seq<Cell>)
    ensures DefaultCells(fields, DefaultCells(fields, cells)) == DefaultCells(fields, cells)
    decreases fields, 1
  {
    hide DefaultCell;
    var x, y := DefaultCells(fields, DefaultCells(fields, cells)), DefaultCells(fields, cells);
    forall i | 0 <= i < |fields| ensures x[i] == y[i] {
      DefaultCellTwice(fields, i, if i < |cells| then cells[i] else Plain);
    }
  }

  lemma ItemReads(f: Field, g: Field, v: Value, t: seq<byte>)
    requires HeapField(f) && WellFormedField(g) && TwinField(f, g) && f.atype.Pointer? && Travels(f, g, v)
    requires StringLike(f.ltype) ==> f.htype.Repeated?
    ensures ReadItem(f, EncValue(g, v) + t) == Done(ItemShape(f, g, v), t)
  {
    hide DecScalar, EncValue, ReadSub, ReadLeaf, Shape, TypedValue, EncodableValue, NestedReads, RoomValue, View,
         HeapField, WellFormedField, TwinField;
    TwinParts(f, g);
    if f.ltype.Submessage? {
      EraseDefaults(f.sub, ZeroCells(f.sub));
      DefaultsTwice(f.sub, NewCells(f.sub));
      SubReads(f, g, v, t, EraseCells(InitialCells(f.sub)), NewCells(f.sub));
    } else if StringLike(f.ltype) {
      LeafReads(f, g, v, t);
    } else {
      ScalarReads(f, g, v, t);
    }
  }

  lemma TwinParts(f: Field, g: Field)
    requires HeapField(f) && WellFormedField(g) && TwinField(f, g)
    ensures f.tag == g.tag && f.ltype == g.ltype && f.htype == g.htype && (f.FixedCount() <==> g.FixedCount())
    ensures !f.ltype.Submessage? && !StringLike(f.ltype) ==> f.dataSize == g.dataSize
    ensures !f.ltype.Submessage? && f.atype.Static? ==> f.dataSize == g.dataSize
    ensures f.ltype.Submessage? ==> HeapTable(f.sub) && WellFormed(g.sub) && Twins(f.sub, g.sub)
    ensures f.ltype != Extension && !f.atype.Callback? && 1 <= f.tag <= MAX_TAG && g.arraySize <= PB_SIZE_MAX
    ensures f.atype.Static? && f.htype.Repeated? ==> f.arraySize == g.arraySize
    ensures f.htype.Oneof? ==> f.atype.Pointer?
    ensures f.atype.Pointer? && f.htype.Repeated? ==> f.dataSize > 0 && !f.FixedCount()
    ensures f.ltype.Submessage? && f.atype.Static? && f.htype.Repeated? ==> !f.FixedCount()
  {
  }

  /** Sizes of twins fit. */
  lemma SizesFit(f: Field, g: Field, n: nat)
    requires HeapField(f) && WellFormedField(g) && TwinField(f, g) && f.atype.Pointer? && 1 <= n <= PB_SIZE_MAX
    requires StringLike(f.ltype) ==> f.htype.Repeated?
    ensures SizesAllowed(f.dataSize, n)
  {
    ProductMonotone(f.dataSize, n, PB_SIZE_MAX);
  }

  lemma ProductMonotone(a: nat, x: nat, y: nat)
    requires x <= y
    ensures a * x <= a * y
  {
    NotNegative(a, y - x);
    assert a * (y - x) == a * y - a * x;
  }

  lemma SingleReads(f: Field, g: Field, v: Value, t: seq<byte>)
    requires HeapField(f) && WellFormedField(g) && TwinField(f, g) && f.atype.Pointer? && !f.htype.Repeated?
    requires Travels(f, g, v)
    ensures ReadSingle(f, EncValue(g, v) + t) == Done(Live(0, [ItemShape(f, g, v)]), t)
  {
    hide EncValue, ReadItem, ReadLeaf, Shape, TypedValue, EncodableValue, NestedReads, RoomValue, HeapField,
         WellFormedField, TwinField, SizesAllowed;
    TwinParts(f, g);
    if StringLike(f.ltype) {
      LeafReads(f, g, v, t);
    } else {
      SizesFit(f, g, 1);
      ItemReads(f, g, v, t);
    }
  }

  // ---------------------------------------------------------------- arrays

  ghost predicate AllTravel(f: Field, g: Field, elems: seq<Value>)
    requires HeapField(f) && WellFormedField(g) && TwinField(f, g)
  {
    forall k | 0 <= k < |elems| :: Travels(f, g, elems[k])
  }

  lemma TravelTyped(f: Field, g: Field, elems: seq<Value>)
    requires HeapField(f) && WellFormedField(g) && TwinField(f, g) && AllTravel(f, g, elems)
    ensures AllTyped(g, elems)
  {
    hide TypedValue, SendableValue, RoomValue, NestedReads;
    forall k | 0 <= k < |elems| ensures TypedValue(g, elems[k]) {
      assert Travels(f, g, elems[k]);
    }
  }

  lemma TravelHead(f: Field, g: Field, elems: seq<Value>)
    requires HeapField(f) && WellFormedField(g) && TwinField(f, g) && AllTravel(f, g, elems) && elems != []
    ensures Travels(f, g, elems[0]) && AllTravel(f, g, elems[1..])
  {
    hide Travels;
  }

  lemma {:induction false} PackedReads(f: Field, g: Field, elems: seq<Value>, len: nat, capacity: nat)
    requires HeapField(f) && WellFormedField(g) && TwinField(f, g) && AllTravel(f, g, elems) && AllTyped(g, elems)
    requires f.atype.Pointer? && f.htype.Repeated? && Packable(f.ltype) && !f.ltype.Submessage? && f.dataSize > 0
    requires len <= capacity <= PB_SIZE_MAX && len + |elems| <= PB_SIZE_MAX
    ensures ReadPacked(f, EncPacked(g, elems), len, capacity) == Done(len + |elems|, [])
    decreases |elems|
  {
    hide DecScalar, EncValue, TypedValue, EncodableValue, RoomValue, View, HeapField, WellFormedField, TwinField,
         Travels, SizesAllowed, Grown;
    if elems != [] {
      var body := EncPacked(g, elems);
      TravelHead(f, g, elems);
      TwinParts(f, g);
      TravelParts(f, g, elems[0]);
      EncNotEmpty(g, elems[0], EncPacked(g, elems[1..]));
      ScalarReads(f, g, elems[0], EncPacked(g, elems[1..]));
      var capacity' := capacity;
      if len == capacity {
        GrownInRange(capacity, |body|, f.dataSize);
        capacity' := Grown(capacity, |body|, f.dataSize);
        SizesFit(f, g, capacity');
      }
      PackedReads(f, g, elems[1..], len + 1, capacity');
    }
  }

  lemma TravelParts(f: Field, g: Field, v: Value)
    requires HeapField(f) && WellFormedField(g) && TwinField(f, g) && Travels(f, g, v)
    ensures TypedValue(g, v) && SendableValue(g, v) && RoomValue(g, v)
    ensures !f.ltype.Submessage? ==> EncodableValue(g, v)
    ensures f.ltype.Submessage? ==> NestedReads(f, g, v)
  {
    hide TypedValue, RoomValue, NestedReads;
  }

  lemma {:induction false} FillReads(f: Field, g: Field, elems: seq<Value>, n: nat)
    requires HeapField(f) && WellFormedField(g) && TwinField(f, g) && AllTravel(f, g, elems) && AllTyped(g, elems)
    requires f.atype.Static? && Packable(f.ltype) && n + |elems| <= f.arraySize
    ensures ReadFill(f, EncPacked(g, elems), n) == Done(n + |elems|, [])
    decreases |elems|
  {
    hide DecScalar, EncValue, TypedValue, EncodableValue, RoomValue, View, HeapField, WellFormedField, TwinField,
         Travels;
    if elems != [] {
      TravelHead(f, g, elems);
      TwinParts(f, g);
      TravelParts(f, g, elems[0]);
      EncNotEmpty(g, elems[0], EncPacked(g, elems[1..]));
      ScalarReads(f, g, elems[0], EncPacked(g, elems[1..]));
      FillReads(f, g, elems[1..], n + 1);
    }
  }

  /** A packed record of all elements. */
  lemma PackedField(f: Field, g: Field, elems: seq<Value>, t: seq<byte>, p: Cell, counter: nat)
    requires HeapField(f) && WellFormedField(g) && TwinField(f, g) && AllTravel(f, g, elems) && AllTyped(g, elems)
    requires f.htype.Repeated? && Packable(f.ltype) && !f.ltype.Submessage? && FramedCell(f, p)
    requires elems != [] && |elems| <= g.arraySize && |EncPacked(g, elems)| < TWO_32
    requires f.FixedCount() ==> counter == 0
    ensures ReadField(f, WT_STRING, Delimited(EncPacked(g, elems)) + t, ManyShape(f, g, [], p), counter)
            == Done(Outcome(ManyShape(f, g, elems, p), if f.FixedCount() then |elems| else counter), t)
  {
    hide EncPacked, TypedValue, HeapField, WellFormedField, TwinField, Travels, ReadDelimited, Delimited, ReadPacked,
         ReadFill, FramedCell;
    TwinParts(f, g);
    DelimitedRoundTrip(EncPacked(g, elems), t);
    if f.atype.Pointer? {
      PackedReads(f, g, elems, 0, 0);
      PlainItems(f, g, elems);
      assert ManyShape(f, g, elems, p).items.contents == seq(|elems|, _ => Plain);
    } else {
      FillReads(f, g, elems, 0);
    }
  }

  lemma PlainItems(f: Field, g: Field, elems: seq<Value>)
    requires HeapField(f) && WellFormedField(g) && TwinField(f, g) && AllTyped(g, elems)
    requires f.htype.Repeated? && Packable(f.ltype)
    ensures forall k | 0 <= k < |elems| :: TypedValue(g, elems[k]) && ItemShape(f, g, elems[k]) == Plain
  {
  }

  /** One more entry behind others. */
  lemma EntryField(f: Field, g: Field, xs: seq<Value>, e: Value, t: seq<byte>, p: Cell, counter: nat)
    requires HeapField(f) && WellFormedField(g) && TwinField(f, g) && AllTravel(f, g, xs + [e])
    requires AllTyped(g, xs) && AllTyped(g, xs + [e]) && Travels(f, g, e)
    requires f.htype.Repeated? && !Packable(f.ltype) && FramedCell(f, p) && |xs| < g.arraySize
    requires f.FixedCount() ==> counter == |xs|
    ensures Inline(f) ==> |xs| < f.arraySize
    ensures ReadField(f, WireTypeOf(f.ltype), EncValue(g, e) + t, ManyShape(f, g, xs, p), counter)
            == Done(Outcome(ManyShape(f, g, xs + [e], p), if f.FixedCount() then |xs| + 1 else counter), t)
  {
    hide EncValue, TypedValue, HeapField, WellFormedField, TwinField, Travels, DecScalar, View, ReadItem, ReadSub,
         SizesAllowed, FramedCell, Shape, ItemShape;
    TwinParts(f, g);
    if f.atype.Pointer? {
      PointerEntry(f, g, xs, e, t, p);
    } else if f.ltype.Submessage? {
      NestedEntry(f, g, xs, e, t, p);
    } else {
      TravelParts(f, g, e);
      ScalarReads(f, g, e, t);
    }
  }

  lemma ManyPointer(f: Field, g: Field, elems: seq<Value>, p: Cell)
    requires HeapField(f) && WellFormedField(g) && TwinField(f, g) && AllTyped(g, elems) && FramedCell(f, p)
    requires f.htype.Repeated? && f.atype.Pointer?
    ensures var c := ManyShape(f, g, elems, p);
            && c.PtrMany? && c.len == |elems| == |ContentsOf(c.items)|
            && (forall k | 0 <= k < |elems| ::
                  TypedValue(g, elems[k]) && ContentsOf(c.items)[k] == ItemShape(f, g, elems[k]))
            && c.items == if elems == [] then Null else Live(0, ContentsOf(c.items))
  {
    hide HeapField, WellFormedField, TwinField, TypedValue, ItemShape, FramedCell;
    forall k | 0 <= k < |elems| ensures TypedValue(g, elems[k]) {
    }
  }

  lemma PointerEntry(f: Field, g: Field, xs: seq<Value>, e: Value, t: seq<byte>, p: Cell)
    requires HeapField(f) && WellFormedField(g) && TwinField(f, g) && Travels(f, g, e)
    requires AllTyped(g, xs) && AllTyped(g, xs + [e])
    requires f.htype.Repeated? && !Packable(f.ltype) && FramedCell(f, p) && |xs| < g.arraySize && f.atype.Pointer?
    ensures var c := ManyShape(f, g, xs, p);
            c.PtrMany? && c.len == |xs|
            && ReadOneMore(f, EncValue(g, e) + t, c.len, c.items) == Done(ManyShape(f, g, xs + [e], p), t)
  {
    hide EncValue, TypedValue, HeapField, WellFormedField, TwinField, Travels, ReadItem, SizesAllowed, FramedCell,
         ItemShape, ManyShape;
    TwinParts(f, g);
    SizesFit(f, g, |xs| + 1);
    ItemReads(f, g, e, t);
    ManyPointer(f, g, xs, p);
    ManyPointer(f, g, xs + [e], p);
    var c, d := ContentsOf(ManyShape(f, g, xs, p).items), ContentsOf(ManyShape(f, g, xs + [e], p).items);
    forall k | 0 <= k < |xs| ensures d[k] == c[k] {
      assert (xs + [e])[k] == xs[k];
    }
    assert d[|xs|] == ItemShape(f, g, (xs + [e])[|xs|]);
    assert d == c[..|xs|] + [ItemShape(f, g, e)];
  }

  lemma ManyNested(f: Field, g: Field, elems: seq<Value>, p: Cell)
    requires HeapField(f) && WellFormedField(g) && TwinField(f, g) && AllTyped(g, elems) && FramedCell(f, p)
    requires f.htype.Repeated? && Inline(f) && |elems| <= f.arraySize
    requires HeapTable(f.sub) && WellFormed(g.sub) && Twins(f.sub, g.sub)
    ensures p.NestedMany? && |p.entries| == f.arraySize
    ensures var c := ManyShape(f, g, elems, p);
            && c.NestedMany? && c.size == |elems| && |c.entries| == f.arraySize
            && (forall k | 0 <= k < f.arraySize :: p.entries[k].Nested? && Framed(f.sub, p.entries[k].cells))
            && (forall k | 0 <= k < |elems| ::
                  && elems[k].Msg? && Typed(g.sub, elems[k].slots)
                  && c.entries[k] == Nested(Shape(f.sub, g.sub, elems[k].slots, p.entries[k].cells)))
            && (forall k | |elems| <= k < f.arraySize :: c.entries[k] == p.entries[k])
  {
    hide HeapField, WellFormedField, Shape, Framed, HeapTable, WellFormed, Twins, Typed;
    forall k | 0 <= k < |elems| ensures elems[k].Msg? && Typed(g.sub, elems[k].slots) {
      assert TypedValue(g, elems[k]);
    }
  }

  lemma NestedEntry(f: Field, g: Field, xs: seq<Value>, e: Value, t: seq<byte>, p: Cell)
    requires HeapField(f) && WellFormedField(g) && TwinField(f, g) && Travels(f, g, e)
    requires AllTyped(g, xs) && AllTyped(g, xs + [e])
    requires f.htype.Repeated? && Inline(f) && FramedCell(f, p) && |xs| < g.arraySize == f.arraySize
    ensures var c := ManyShape(f, g, xs, p);
            c.NestedMany? && c.size == |xs|
            && ReadEntry(f, EncValue(g, e) + t, c.size, c.entries) == Done(ManyShape(f, g, xs + [e], p), t)
  {
    hide EncValue, TypedValue, HeapField, WellFormedField, TwinField, Travels, ReadSub, Shape, ManyShape, FramedCell,
         Framed, HeapTable, WellFormed, Twins, Typed;
    TwinParts(f, g);
    var c, d, n := ManyShape(f, g, xs, p), ManyShape(f, g, xs + [e], p), |xs|;
    ManyNested(f, g, xs, p);
    ManyNested(f, g, xs + [e], p);
    SubReads(f, g, e, t, p.entries[n].cells, p.entries[n].cells);
    assert (xs + [e])[n] == e;
    var r := c.entries[n := Nested(Shape(f.sub, g.sub, e.slots, p.entries[n].cells))];
    forall k | 0 <= k < f.arraySize ensures d.entries[k] == r[k] {
      if k < n { assert (xs + [e])[k] == xs[k]; }
    }
    assert d.entries == r;
  }

  // --------------------------------------------------------------- records

  /** The loop on a record of a known row. */
  lemma LoopOnRow(hf: seq<Field>, i: nat, wireType: nat, s: seq<byte>, c: HeapCursor)
    requires HeapTable(hf) && i < |hf| && wireType < 8
    ensures HeapField(hf[i])
    ensures var r := ReadKnown(hf, i, wireType, s, c);
            ReadLoop(hf, EncVarint(hf[i].tag * 8 + wireType) + s, c)
            == if r.Done? then ReadLoop(hf, r.rest, r.val) else Fail
  {
    hide Varint32, EncVarint, ReadKnown;
    assert HeapField(hf[i]);
    KeyRoundTrip(hf[i].tag, wireType, s);
    LookupUnique(hf, i);
  }

  /** The state after an array row, begun if it has a fixed count. */
  function ArrayCursor(hf: seq<Field>, i: nat, c: HeapCursor, cell: Cell, n: nat): HeapCursor
    requires i < |hf| == |c.cells|
  {
    HeapCursor(c.cells[i := cell], c.seen, if hf[i].FixedCount() then i else c.fixedAt,
               if hf[i].FixedCount() then n else c.fixedCount)
  }

  /** Row i can take another entry: if it has a fixed count it is in progress, or it may begin. */
  ghost predicate Takes(hf: seq<Field>, i: nat, n: nat, c: HeapCursor)
    requires i < |hf|
  {
    hf[i].FixedCount() ==>
      if c.fixedAt == i then c.fixedCount == n else n == 0 && FixedDone(hf, c.fixedAt, c.fixedCount)
  }

  lemma ArrayStep(hf: seq<Field>, i: nat, wireType: nat, s: seq<byte>, c: HeapCursor, n: nat)
    requires HeapTable(hf) && i < |hf| == |c.cells| && hf[i].htype.Repeated? && wireType < 8 && Takes(hf, i, n, c)
    ensures HeapField(hf[i])
    ensures var r := ReadField(hf[i], wireType, s, c.cells[i], if hf[i].FixedCount() then n else c.fixedCount);
            r.Done? && (!hf[i].FixedCount() ==> r.val.counter == c.fixedCount) ==>
              ReadLoop(hf, EncVarint(hf[i].tag * 8 + wireType) + s, c)
              == ReadLoop(hf, r.rest, ArrayCursor(hf, i, c, r.val.cell, r.val.counter))
  {
    hide EncVarint, ReadField, ReadLoop, HeapTable;
    LoopOnRow(hf, i, wireType, s, c);
  }

  lemma {:induction false} EntriesRead(hf: seq<Field>, sf: seq<Field>, i: nat, xs: seq<Value>, ys: seq<Value>,
                                       t: seq<byte>, p: Cell, c: HeapCursor)
    requires HeapTable(hf) && i < |hf| == |c.cells| && |sf| == |hf|
    requires var f, g := hf[i], sf[i];
             && HeapField(f) && WellFormedField(g) && TwinField(f, g) && AllTravel(f, g, xs + ys)
             && AllTyped(g, xs) && AllTyped(g, ys) && AllTyped(g, xs + ys)
             && f.htype.Repeated? && !Packable(f.ltype) && FramedCell(f, p) && |xs| + |ys| <= g.arraySize
             && (Inline(f) ==> |xs| + |ys| <= f.arraySize)
             && c.cells[i] == ManyShape(f, g, xs, p)
    requires Takes(hf, i, |xs|, c) && ys != []
    ensures ReadLoop(hf, EncEntries(sf[i], ys) + t, c)
            == ReadLoop(hf, t, ArrayCursor(hf, i, c, ManyShape(hf[i], sf[i], xs + ys, p), |xs| + |ys|))
    decreases |ys|
  {
    hide HeapTable, HeapField, WellFormedField, TwinField, TypedValue, Travels, EncVarint, EncValue, ReadField,
         ReadLoop, FramedCell, ManyShape, AllTravel, AllTyped;
    var f, g, e, more := hf[i], sf[i], ys[0], ys[1..];
    TwinParts(f, g);
    SplitTravel(f, g, xs, ys);
    var rest := EncEntries(g, more) + t;
    assert EncEntries(g, ys) + t == EncVarint(f.tag * 8 + WireTypeOf(f.ltype)) + (EncValue(g, e) + rest);
    EntryField(f, g, xs, e, rest, p, if f.FixedCount() then |xs| else c.fixedCount);
    ArrayStep(hf, i, WireTypeOf(f.ltype), EncValue(g, e) + rest, c, |xs|);
    var c' := ArrayCursor(hf, i, c, ManyShape(f, g, xs + [e], p), if f.FixedCount() then |xs| + 1 else c.fixedCount);
    if more == [] {
      assert xs + ys == xs + [e];
      assert EncEntries(g, more) == [];
      assert rest == t;
    } else {
      assert (xs + [e]) + more == xs + ys;
      EntriesRead(hf, sf, i, xs + [e], more, t, p, c');
      var last := ManyShape(f, g, xs + ys, p);
      assert c'.cells[i := last] == c.cells[i := last];
    }
  }

  lemma SplitTravel(f: Field, g: Field, xs: seq<Value>, ys: seq<Value>)
    requires HeapField(f) && WellFormedField(g) && TwinField(f, g) && AllTravel(f, g, xs + ys) && ys != []
    requires AllTyped(g, xs) && AllTyped(g, ys)
    ensures var e, more := ys[0], ys[1..];
            && TypedValue(g, e) && Travels(f, g, e)
            && AllTravel(f, g, xs + [e]) && AllTyped(g, xs + [e]) && AllTyped(g, more)
            && (xs + [e]) + more == xs + ys
  {
    hide Travels, TypedValue;
    var e, more := ys[0], ys[1..];
    assert (xs + ys)[|xs|] == e;
    forall k | 0 <= k < |xs + [e]| ensures Travels(f, g, (xs + [e])[k]) && TypedValue(g, (xs + [e])[k]) {
      assert (xs + [e])[k] == (xs + ys)[k];
      if k == |xs| { assert TypedValue(g, ys[0]); }
    }
  }

  /** All records of an array row. */
  lemma ArrayReads(hf: seq<Field>, sf: seq<Field>, i: nat, elems: seq<Value>, t: seq<byte>, p: Cell, c: HeapCursor)
    requires HeapTable(hf) && i < |hf| == |c.cells| && |sf| == |hf|
    requires var f, g := hf[i], sf[i];
             && HeapField(f) && WellFormedField(g) && TwinField(f, g) && AllTravel(f, g, elems) && AllTyped(g, elems)
             && f.htype.Repeated? && FramedCell(f, p) && elems != [] && |elems| <= g.arraySize
             && (Inline(f) ==> |elems| <= f.arraySize)
             && (Packable(f.ltype) ==> |EncPacked(g, elems)| < TWO_32)
             && c.cells[i] == ManyShape(f, g, [], p)
    requires Takes(hf, i, 0, c)
    ensures ReadLoop(hf, EncArray(sf[i], elems) + t, c)
            == ReadLoop(hf, t, ArrayCursor(hf, i, c, ManyShape(hf[i], sf[i], elems, p), |elems|))
  {
    hide HeapTable, HeapField, WellFormedField, TwinField, TypedValue, Travels, EncVarint, EncPacked, ReadField,
         ReadLoop, FramedCell, ManyShape, Delimited, EncEntries;
    var f, g := hf[i], sf[i];
    TwinParts(f, g);
    assert [] + elems == elems;
    if Packable(f.ltype) {
      var body := Delimited(EncPacked(g, elems));
      assert EncArray(g, elems) + t == EncVarint(f.tag * 8 + WT_STRING) + (body + t);
      PackedField(f, g, elems, t, p, if f.FixedCount() then 0 else c.fixedCount);
      ArrayStep(hf, i, WT_STRING, body + t, c, 0);
    } else {
      EntriesRead(hf, sf, i, [], elems, t, p, c);
    }
  }

  // -------------------------------------------------------------- messages

  predicate Matched(hf: seq<Field>, sf: seq<Field>, slots: seq<Slot>, prior: seq<Cell>) {
    HeapTable(hf) && WellFormed(sf) && Twins(hf, sf) && Typed(sf, slots) && Framed(hf, prior)
  }

  lemma RowsMatch(hf: seq<Field>, sf: seq<Field>, slots: seq<Slot>, prior: seq<Cell>, i: nat)
    requires Matched(hf, sf, slots, prior) && i < |hf|
    ensures |hf| == |sf| == |slots| == |prior|
    ensures HeapField(hf[i]) && WellFormedField(sf[i]) && TwinField(hf[i], sf[i]) && FramedCell(hf[i], prior[i])
    ensures Continues(hf, i) <==> Continues(sf, i)
    ensures Home(hf, i) == Home(sf, i)
    ensures hf[i].htype.Repeated? && Inline(hf[i]) ==> hf[i].arraySize == sf[i].arraySize
  {
    hide HeapField, WellFormedField, TypedSlot, FramedCell;
    assert TwinField(hf[i], sf[i]);
    if i > 0 { assert TwinField(hf[i - 1], sf[i - 1]); }
    if Continues(hf, i) { RowsMatch(hf, sf, slots, prior, i - 1); }
  }

  /** The struct after the rows before i have been received. */
  function ShapeUpTo(hf: seq<Field>, sf: seq<Field>, slots: seq<Slot>, prior: seq<Cell>, i: nat): (r: seq<Cell>)
    requires Matched(hf, sf, slots, prior)
    ensures |r| == |hf|
  {
    seq(|hf|, h requires 0 <= h < |hf| =>
      if Settled(sf, slots, h, i) then CellShape(hf, sf, slots, prior, h) else DefaultCell(hf, h, prior[h]))
  }

  function CursorUpTo(hf: seq<Field>, sf: seq<Field>, slots: seq<Slot>, prior: seq<Cell>, i: nat): (c: HeapCursor)
    requires Matched(hf, sf, slots, prior) && i <= |hf|
  {
    var c := CursorAt(sf, slots, slots, i);
    HeapCursor(ShapeUpTo(hf, sf, slots, prior, i), c.seen, c.fixedAt, c.fixedCount)
  }

  /** A union without a member stays as the defaults left it. */
  lemma UnsettledShape(hf: seq<Field>, sf: seq<Field>, slots: seq<Slot>, prior: seq<Cell>, h: nat)
    requires Matched(hf, sf, slots, prior) && h < |hf| == |sf| == |prior|
    ensures !Settled(sf, slots, h, |hf|) ==> CellShape(hf, sf, slots, prior, h) == DefaultCell(hf, h, prior[h])
    ensures !Settled(sf, slots, h, 0)
  {
    hide HeapTable, WellFormed, Typed, Framed, ManyShape, DefaultCell, ItemShape, HeapField, WellFormedField,
         TypedValue, TypedSlot;
    RowsMatch(hf, sf, slots, prior, h);
    TwinParts(hf[h], sf[h]);
  }

  lemma ShapeEnds(hf: seq<Field>, sf: seq<Field>, slots: seq<Slot>, prior: seq<Cell>)
    requires Matched(hf, sf, slots, prior)
    ensures ShapeUpTo(hf, sf, slots, prior, 0) == DefaultCells(hf, prior)
    ensures ShapeUpTo(hf, sf, slots, prior, |hf|) == Shape(hf, sf, slots, prior)
  {
    hide HeapTable, WellFormed, Typed, Twins, Framed, CellShape, DefaultCell, Settled;
    var x, y := ShapeUpTo(hf, sf, slots, prior, |hf|), Shape(hf, sf, slots, prior);
    var u, v := ShapeUpTo(hf, sf, slots, prior, 0), DefaultCells(hf, prior);
    forall h | 0 <= h < |hf| ensures x[h] == y[h] && u[h] == v[h] {
      RowsMatch(hf, sf, slots, prior, h);
      UnsettledShape(hf, sf, slots, prior, h);
    }
    assert x == y && u == v;
  }

  lemma EmptyArray(hf: seq<Field>, sf: seq<Field>, slots: seq<Slot>, prior: seq<Cell>, i: nat)
    requires Matched(hf, sf, slots, prior) && i < |hf| == |sf| == |prior| && hf[i].htype.Repeated?
    requires HeapField(hf[i]) && WellFormedField(sf[i]) && TwinField(hf[i], sf[i]) && FramedCell(hf[i], prior[i])
    ensures ManyShape(hf[i], sf[i], [], prior[i]) == DefaultCell(hf, i, prior[i])
  {
    hide HeapTable, WellFormed, Typed, Twins, Framed, TwinField, WellFormedField;
    var f, p := hf[i], prior[i];
    if Inline(f) {
      assert seq(f.arraySize, k requires 0 <= k < f.arraySize => p.entries[k]) == p.entries;
    }
  }

  /** A row that sends nothing is as the defaults left it. */
  lemma SilentRow(hf: seq<Field>, sf: seq<Field>, slots: seq<Slot>, prior: seq<Cell>, i: nat)
    requires Matched(hf, sf, slots, prior) && i < |hf| && |sf| == |hf|
    requires SendsNothing(sf, slots, i) && SendableField(sf, slots, i)
    ensures CursorUpTo(hf, sf, slots, prior, i + 1) == CursorUpTo(hf, sf, slots, prior, i)
  {
    hide HeapTable, WellFormed, Typed, Twins, Framed, ManyShape, DefaultCell, ItemShape, TwinField, HeapField,
         WellFormedField, TypedValue, TypedSlot, CursorAt, AllSendable, EncPacked, DefaultValueTest;
    RowsMatch(hf, sf, slots, prior, i);
    TwinParts(hf[i], sf[i]);
    AbsentKeepsCursor(sf, slots, slots, i);
    var x, y := ShapeUpTo(hf, sf, slots, prior, i + 1), ShapeUpTo(hf, sf, slots, prior, i);
    forall h | 0 <= h < |hf| ensures x[h] == y[h] {
      RowsMatch(hf, sf, slots, prior, h);
      TwinParts(hf[h], sf[h]);
      if h == i && hf[i].htype.Repeated? {
        assert Entries(SlotOf(sf, slots, i)) == [];
        EmptyArray(hf, sf, slots, prior, i);
      }
    }
    assert x == y;
  }

  /** Receiving row i settles its home, which until then is as the defaults left it. */
  lemma NextShape(hf: seq<Field>, sf: seq<Field>, slots: seq<Slot>, prior: seq<Cell>, i: nat)
    requires Matched(hf, sf, slots, prior) && i < |hf| == |sf| == |prior|
    requires !SendsNothing(sf, slots, i)
    ensures var home, before := Home(hf, i), ShapeUpTo(hf, sf, slots, prior, i);
            && before[home] == DefaultCell(hf, home, prior[home])
            && ShapeUpTo(hf, sf, slots, prior, i + 1) == before[home := CellShape(hf, sf, slots, prior, home)]
  {
    hide HeapTable, WellFormed, Typed, Twins, Framed, ManyShape, DefaultCell, CellShape, TwinField, HeapField,
         WellFormedField, TypedValue, TypedSlot, DefaultValueTest;
    RowsMatch(hf, sf, slots, prior, i);
    SelectsMember(sf, i);
    var home, x, y := Home(hf, i), ShapeUpTo(hf, sf, slots, prior, i + 1), ShapeUpTo(hf, sf, slots, prior, i);
    forall h | 0 <= h < |hf| && h != home ensures x[h] == y[h] {
      RowsMatch(hf, sf, slots, prior, h);
    }
    assert Settled(sf, slots, home, i + 1) && !Settled(sf, slots, home, i);
    assert x == y[home := CellShape(hf, sf, slots, prior, home)];
  }

  /** The fixed-count array received last is full, and row i may begin. */
  lemma MayBegin(hf: seq<Field>, sf: seq<Field>, slots: seq<Slot>, prior: seq<Cell>, i: nat)
    requires Matched(hf, sf, slots, prior) && i <= |hf| == |sf|
    ensures var c := CursorUpTo(hf, sf, slots, prior, i); c.fixedAt < i && FixedDone(hf, c.fixedAt, c.fixedCount)
  {
    hide HeapTable, WellFormed, Typed, Twins, Framed, ShapeUpTo, Partial, RequiredUpTo;
    var j := CursorAt(sf, slots, slots, i).fixedAt;
    if j >= 0 {
      RowsMatch(hf, sf, slots, prior, j);
      TwinParts(hf[j], sf[j]);
      FixedRow(hf[j], sf[j]);
    }
  }

  lemma FixedRow(f: Field, g: Field)
    requires HeapField(f) && WellFormedField(g) && TwinField(f, g) && g.FixedCount()
    ensures f.FixedCount() && f.arraySize == g.arraySize
  {
  }

  ghost predicate RowTravels(hf: seq<Field>, sf: seq<Field>, slots: seq<Slot>, prior: seq<Cell>, i: nat)
    requires Matched(hf, sf, slots, prior) && i < |hf| == |sf|
    requires HeapField(hf[i]) && WellFormedField(sf[i]) && TwinField(hf[i], sf[i])
  {
    if hf[i].htype.Repeated? then
      sf[i].htype.Repeated? && AllTravel(hf[i], sf[i], Entries(SlotOf(sf, slots, i)))
    else !sf[i].htype.Repeated? && (Present(sf, slots, i) ==> Travels(hf[i], sf[i], ValueOf(sf, slots, i)))
  }

  lemma ArrayRow(hf: seq<Field>, sf: seq<Field>, slots: seq<Slot>, prior: seq<Cell>, i: nat, t: seq<byte>)
    requires Matched(hf, sf, slots, prior) && i < |hf| == |sf| == |prior| && hf[i].htype.Repeated?
    requires HeapField(hf[i]) && WellFormedField(sf[i]) && TwinField(hf[i], sf[i]) && FramedCell(hf[i], prior[i])
    requires RowTravels(hf, sf, slots, prior, i) && SendableField(sf, slots, i) && !SendsNothing(sf, slots, i)
    ensures ReadLoop(hf, EncField(sf, slots, i) + t, CursorUpTo(hf, sf, slots, prior, i))
            == ReadLoop(hf, t, CursorUpTo(hf, sf, slots, prior, i + 1))
  {
    hide HeapTable, WellFormed, Typed, Twins, Framed, DefaultCell, TwinField, HeapField, WellFormedField, TypedValue,
         TypedSlot, DefaultValueTest, Travels, FramedCell, ShapeUpTo, EncArray, EncPacked, ReadLoop, AllSendable,
         ManyShape, Partial, RequiredUpTo;
    var f, g, p, c := hf[i], sf[i], prior[i], CursorUpTo(hf, sf, slots, prior, i);
    TwinParts(f, g);
    NextShape(hf, sf, slots, prior, i);
    EmptyArray(hf, sf, slots, prior, i);
    MayBegin(hf, sf, slots, prior, i);
    var elems := Entries(SlotOf(sf, slots, i));
    assert elems != [];
    ArrayReads(hf, sf, i, elems, t, p, c);
    SameRequired(sf, i);
    if f.FixedCount() { FixedRow(f, g); }
    assert CellShape(hf, sf, slots, prior, i) == ManyShape(f, g, elems, p);
    assert ArrayCursor(hf, i, c, ManyShape(f, g, elems, p), |elems|) == CursorUpTo(hf, sf, slots, prior, i + 1);
  }

  /** A single value, into the cell that the defaults left. */
  lemma SingleField(hf: seq<Field>, sf: seq<Field>, slots: seq<Slot>, prior: seq<Cell>, i: nat, t: seq<byte>,
                    counter: nat)
    requires Matched(hf, sf, slots, prior) && i < |hf| == |sf| == |prior| && !hf[i].htype.Repeated?
    requires HeapField(hf[i]) && WellFormedField(sf[i]) && TwinField(hf[i], sf[i]) && FramedCell(hf[i], prior[i])
    requires RowTravels(hf, sf, slots, prior, i) && Present(sf, slots, i)
    ensures TypedValue(sf[i], ValueOf(sf, slots, i))
    ensures var home := Home(hf, i);
            ReadField(hf[i], WireTypeOf(hf[i].ltype), EncValue(sf[i], ValueOf(sf, slots, i)) + t,
                      DefaultCell(hf, home, prior[home]), counter)
            == Done(Outcome(CellShape(hf, sf, slots, prior, home), counter), t)
  {
    hide HeapTable, WellFormed, Typed, Twins, Framed, TwinField, HeapField, WellFormedField, TypedValue, TypedSlot,
         DefaultValueTest, Travels, EncValue, ReadSingle, ReadSub, DecScalar, View, ItemShape, Shape, DefaultCells;
    var f, g, v := hf[i], sf[i], ValueOf(sf, slots, i);
    TwinParts(f, g);
    RowsMatch(hf, sf, slots, prior, i);
    SelectsMember(sf, i);
    if f.atype.Pointer? {
      SingleReads(f, g, v, t);
    } else if f.ltype.Submessage? {
      SubReads(f, g, v, t, DefaultCells(f.sub, prior[i].cells), prior[i].cells);
    } else {
      TravelParts(f, g, v);
      ScalarReads(f, g, v, t);
    }
  }

  lemma SingleRow(hf: seq<Field>, sf: seq<Field>, slots: seq<Slot>, prior: seq<Cell>, i: nat, t: seq<byte>)
    requires Matched(hf, sf, slots, prior) && i < |hf| == |sf| == |prior| && !hf[i].htype.Repeated?
    requires HeapField(hf[i]) && WellFormedField(sf[i]) && TwinField(hf[i], sf[i]) && FramedCell(hf[i], prior[i])
    requires RowTravels(hf, sf, slots, prior, i) && Present(sf, slots, i)
    ensures ReadLoop(hf, EncField(sf, slots, i) + t, CursorUpTo(hf, sf, slots, prior, i))
            == ReadLoop(hf, t, CursorUpTo(hf, sf, slots, prior, i + 1))
  {
    hide HeapTable, WellFormed, Typed, Twins, Framed, TwinField, HeapField, WellFormedField, TypedValue, TypedSlot,
         DefaultValueTest, Travels, EncValue, ReadField, CellShape, ShapeUpTo, EncVarint, ReadLoop, Partial, Home,
         DefaultCell, FramedCell;
    var f, g, c := hf[i], sf[i], CursorUpTo(hf, sf, slots, prior, i);
    TwinParts(f, g);
    NextShape(hf, sf, slots, prior, i);
    SingleField(hf, sf, slots, prior, i, t, c.fixedCount);
    var s := EncValue(g, ValueOf(sf, slots, i)) + t;
    assert EncField(sf, slots, i) + t == EncVarint(f.tag * 8 + WireTypeOf(f.ltype)) + s;
    LoopOnRow(hf, i, WireTypeOf(f.ltype), s, c);
    assert RequiredUpTo(sf, i + 1) == RequiredUpTo(sf, i) + (if sf[i].htype.Required? then {i} else {});
    var d := CursorUpTo(hf, sf, slots, prior, i + 1);
    var r := ReadKnown(hf, i, WireTypeOf(f.ltype), s, c);
    assert r.Done? && r.val.cells == d.cells && r.val.seen == d.seen;
  }

  ghost predicate RowsTravel(hf: seq<Field>, sf: seq<Field>, slots: seq<Slot>, prior: seq<Cell>)
    requires Matched(hf, sf, slots, prior) && |hf| == |sf| == |prior|
  {
    forall i | 0 <= i < |hf| ::
      && HeapField(hf[i]) && WellFormedField(sf[i]) && TwinField(hf[i], sf[i]) && FramedCell(hf[i], prior[i])
      && SendableField(sf, slots, i) && RowTravels(hf, sf, slots, prior, i)
  }

  lemma {:induction false} RowsRead(hf: seq<Field>, sf: seq<Field>, slots: seq<Slot>, prior: seq<Cell>, i: nat)
    requires Matched(hf, sf, slots, prior) && i <= |hf| == |sf| == |prior| && RowsTravel(hf, sf, slots, prior)
    ensures ReadLoop(hf, EncFrom(sf, slots, i), CursorUpTo(hf, sf, slots, prior, i))
            == ReadLoop(hf, [], CursorUpTo(hf, sf, slots, prior, |hf|))
    decreases |hf| - i
  {
    hide HeapTable, WellFormed, Typed, Twins, Framed, TwinField, HeapField, WellFormedField, FramedCell, SendableField,
         RowTravels, CursorUpTo, EncField, ReadLoop, SendsNothing;
    if i < |hf| {
      var t := EncFrom(sf, slots, i + 1);
      if SendsNothing(sf, slots, i) {
        SilentRow(hf, sf, slots, prior, i);
        EncFieldEmpty(sf, slots, i);
        assert [] + t == t;
      } else if hf[i].htype.Repeated? {
        ArrayRow(hf, sf, slots, prior, i, t);
      } else {
        SoundSends(sf, slots, i);
        SingleRow(hf, sf, slots, prior, i, t);
      }
      RowsRead(hf, sf, slots, prior, i + 1);
    }
  }

  lemma SoundSends(sf: seq<Field>, slots: seq<Slot>, i: nat)
    requires WellFormed(sf) && Typed(sf, slots) && i < |sf| && !SendsNothing(sf, slots, i)
    ensures Present(sf, slots, i)
  {
  }

  // -------------------------------------------------- over the whole tree

  lemma {:induction false} ValueTravels(f: Field, g: Field, v: Value)
    requires HeapField(f) && WellFormedField(g) && TwinField(f, g)
    requires TypedValue(g, v) && SendableValue(g, v) && RoomValue(g, v)
    ensures Travels(f, g, v)
    decreases f, 0
  {
    hide Framed, ReadMsg, EncMsg, Shape, DefaultCells, HeapTable, WellFormed, Twins, Typed, SendableMsg, RoomMsg;
    if f.ltype.Submessage? {
      TwinParts(f, g);
      forall prior | Framed(f.sub, prior)
        ensures ReadMsg(f.sub, EncMsg(g.sub, v.slots), DefaultCells(f.sub, prior))
             == Done(Shape(f.sub, g.sub, v.slots, prior), [])
      {
        MessageReads(f.sub, g.sub, v.slots, prior);
      }
    }
  }

  lemma {:induction false} RowTravelsOk(hf: seq<Field>, sf: seq<Field>, slots: seq<Slot>, prior: seq<Cell>, i: nat)
    requires Matched(hf, sf, slots, prior) && i < |hf| == |sf| == |prior|
    requires HeapField(hf[i]) && WellFormedField(sf[i]) && TwinField(hf[i], sf[i])
    requires SendableField(sf, slots, i) && RoomField(sf, slots, i)
    ensures RowTravels(hf, sf, slots, prior, i)
    decreases hf, 0
  {
    hide HeapTable, WellFormed, Typed, Twins, Framed, TwinField, HeapField, WellFormedField, TypedValue, TypedSlot,
         SendableValue, RoomValue, Travels, EncPacked, Present;
    var f, g := hf[i], sf[i];
    TwinParts(f, g);
    if f.htype.Repeated? {
      var elems := Entries(SlotOf(sf, slots, i));
      forall k | 0 <= k < |elems| ensures Travels(f, g, elems[k]) {
        assert TypedValue(g, elems[k]) && SendableValue(g, elems[k]) && RoomValue(g, elems[k]);
        ValueTravels(f, g, elems[k]);
      }
    } else if Present(sf, slots, i) {
      ValueTravels(f, g, ValueOf(sf, slots, i));
    }
  }

  lemma AllRequired(hf: seq<Field>, sf: seq<Field>, slots: seq<Slot>, prior: seq<Cell>)
    requires Matched(hf, sf, slots, prior) && |hf| == |sf|
    ensures RequiredSeen(hf, RequiredUpTo(sf, |sf|))
  {
    hide HeapTable, WellFormed, Typed, Framed, TwinField, RequiredBefore;
    forall i | 0 <= i < |hf| && Tracked(hf, i) ensures i in RequiredUpTo(sf, |sf|) {
      RowsMatch(hf, sf, slots, prior, i);
      TwinParts(hf[i], sf[i]);
    }
  }

  /** pb_decode with allocation, of what pb_encode made of a struct, over any memory: it succeeds if no
      allocation is refused, and rebuilds that struct with exactly its present members allocated. */
  lemma {:induction false} MessageReads(hf: seq<Field>, sf: seq<Field>, slots: seq<Slot>, prior: seq<Cell>)
    requires HeapTable(hf) && WellFormed(sf) && Twins(hf, sf) && Typed(sf, slots) && Framed(hf, prior)
    requires SendableMsg(sf, slots) && RoomMsg(sf, slots)
    ensures ReadMsg(hf, EncMsg(sf, slots), DefaultCells(hf, prior)) == Done(Shape(hf, sf, slots, prior), [])
    decreases hf, 1
  {
    hide HeapTable, WellFormed, Typed, Twins, Framed, TwinField, HeapField, WellFormedField, FramedCell, SendableField,
         RoomField, RowTravels, EncFrom, ReadLoop, ShapeUpTo, Shape, DefaultCells, RequiredSeen, Partial;
    assert |hf| == |sf| == |prior| by {
      if |hf| > 0 { RowsMatch(hf, sf, slots, prior, 0); } else { EmptyTwins(hf, sf, prior); }
    }
    forall i | 0 <= i < |hf|
      ensures HeapField(hf[i]) && WellFormedField(sf[i]) && TwinField(hf[i], sf[i]) && FramedCell(hf[i], prior[i])
      ensures SendableField(sf, slots, i) && RowTravels(hf, sf, slots, prior, i)
    {
      RowsMatch(hf, sf, slots, prior, i);
      assert RoomField(sf, slots, i);
      RowTravelsOk(hf, sf, slots, prior, i);
    }
    RowsRead(hf, sf, slots, prior, 0);
    ShapeEnds(hf, sf, slots, prior);
    MayBegin(hf, sf, slots, prior, |hf|);
    AllRequired(hf, sf, slots, prior);
    assert RequiredUpTo(sf, 0) == {};
    ReadNothing(hf, CursorUpTo(hf, sf, slots, prior, |hf|));
  }

  lemma ReadNothing(hf: seq<Field>, c: HeapCursor)
    requires HeapTable(hf)
    ensures ReadLoop(hf, [], c) == Done(c, [])
  {
  }

  lemma EmptyTwins(hf: seq<Field>, sf: seq<Field>, prior: seq<Cell>)
    requires Twins(hf, sf) && Framed(hf, prior)
    ensures |hf| == |sf| == |prior|
  {
  }
}
