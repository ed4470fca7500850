/** Records of structs with pointers: how they are framed, that a pointer is replaced and not merged into, and
    what the decoder makes of encoded structs. */
module HeapRecords {
  import opened Bits
  import opened Wire
  import opened Descriptors
  import opened Encoding
  import opened Decoding
  import opened Canonical
  import opened Merging
  import opened Occurrence
  import opened Boundaries
  import opened InStreams
  import opened HeapModel
  import opened HeapRelease
  import opened HeapAllocation
  import opened HeapShapes
  import opened HeapReading
  import opened HeapDecoder
  import opened HeapRoundTrip
  import opened OutStreams
  import opened Completeness
  import opened Arrays

  // ---------------------------------------------------------------- framing

  lemma LeafFrames(f: Field, s: seq<byte>)
    requires ReadLeaf(f, s).Done?
    ensures Skip(WT_STRING, s) == Done((), ReadLeaf(f, s).rest)
  {
    hide Varint32;
  }

  lemma SubFrames(f: Field, s: seq<byte>, cells: seq<Cell>)
    requires HeapField(f) && f.ltype.Submessage? && ReadSub(f, s, cells).Done?
    ensures Skip(WT_STRING, s) == Done((), ReadSub(f, s, cells).rest)
  {
    hide ReadDelimited, ReadMsg, DefaultCells;
  }

  lemma ScalarFrames(f: Field, s: seq<byte>)
    requires HeapField(f) && !f.ltype.Submessage? && DecScalar(View(f), s).Done?
    ensures Skip(WireTypeOf(f.ltype), s) == Done((), DecScalar(View(f), s).rest)
  {
    hide DecScalar, Skip;
    ScalarFramesLikeSkip(View(f), s);
  }

  lemma ItemFrames(f: Field, s: seq<byte>)
    requires HeapField(f)
    ensures ReadItem(f, s).Done? ==> Skip(WireTypeOf(f.ltype), s) == Done((), ReadItem(f, s).rest)
    ensures ReadSingle(f, s).Done? ==> Skip(WireTypeOf(f.ltype), s) == Done((), ReadSingle(f, s).rest)
  {
    hide Skip, DecScalar, ReadSub, ReadLeaf, View, HeapField, SizesAllowed;
    if f.ltype.Submessage? {
      SubOf(f);
      if ReadSub(f, s, EraseCells(InitialCells(f.sub))).Done? { SubFrames(f, s, EraseCells(InitialCells(f.sub))); }
    } else if StringLike(f.ltype) {
      if ReadLeaf(f, s).Done? { LeafFrames(f, s); }
    } else if DecScalar(View(f), s).Done? {
      ScalarFrames(f, s);
    }
  }

  lemma PackedFrames(s: seq<byte>)
    requires ReadDelimited(s).Done?
    ensures Skip(WT_STRING, s) == Done((), ReadDelimited(s).rest)
  {
  }

  lemma ManyFrames(f: Field, wireType: nat, s: seq<byte>, len: nat, p: Block)
    requires HeapField(f) && f.atype.Pointer? && f.htype.Repeated? && len <= PB_SIZE_MAX && Matches(f, wireType)
    requires ReadMany(f, wireType, s, len, p).Done?
    ensures Skip(wireType, s) == Done((), ReadMany(f, wireType, s, len, p).rest)
  {
    hide Skip, ReadItem, ReadPacked, ReadDelimited, HeapField, SizesAllowed;
    if wireType == WT_STRING && Packable(f.ltype) {
      PackedFrames(s);
    } else {
      ItemFrames(f, s);
    }
  }

  lemma StaticFrames(f: Field, wireType: nat, s: seq<byte>, n: nat)
    requires HeapField(f) && !f.ltype.Submessage? && Matches(f, wireType) && ReadStatic(f, wireType, s, n).Done?
    ensures Skip(wireType, s) == Done((), ReadStatic(f, wireType, s, n).rest)
  {
    hide Skip, DecScalar, View, ReadFill, ReadDelimited, HeapField;
    if f.htype.Repeated? && wireType == WT_STRING && Packable(f.ltype) {
      PackedFrames(s);
    } else {
      ScalarFrames(f, s);
    }
  }

  /** For a matching wire type, a successful record consumes what skipping would. */
  lemma FieldFrames(f: Field, wireType: nat, s: seq<byte>, c: Cell, counter: nat)
    requires HeapField(f) && Matches(f, wireType) && ReadField(f, wireType, s, c, counter).Done?
    ensures Skip(wireType, s) == Done((), ReadField(f, wireType, s, c, counter).rest)
  {
    hide Skip, ReadStatic, ReadSub, ReadMany, ReadSingle, HeapField;
    if f.atype.Pointer? && f.htype.Repeated? {
      ManyFrames(f, wireType, s, c.len, c.items);
    } else if f.htype.Oneof? || f.atype.Pointer? {
      ItemFrames(f, s);
    } else if !f.ltype.Submessage? {
      StaticFrames(f, wireType, s, if c.Count? then c.n else counter);
    } else if f.htype.Repeated? {
      SubFrames(f, s, c.entries[c.size].cells);
    } else {
      SubFrames(f, s, c.cells);
    }
  }

  lemma RecordFrames(fields: seq<Field>, key: nat, s: seq<byte>, c: HeapCursor)
    requires HeapTable(fields) && KeyMatches(fields, key) && ReadRecord(fields, key / 8, key % 8, s, c).Done?
    ensures Skip(key % 8, s) == Done((), ReadRecord(fields, key / 8, key % 8, s, c).rest)
  {
    hide Skip, ReadField, Matches, Lookup, Varint32;
    var i := Lookup(fields, key / 8);
    if i < |fields| {
      assert HeapField(fields[i]);
      var begins := fields[i].FixedCount() && c.fixedAt != i;
      FieldFrames(fields[i], key % 8, s, c.cells[Home(fields, i)], if begins then 0 else c.fixedCount);
    } else {
      assert Skip(key % 8, s).val == ();
    }
  }

  /** What is decoded are whole records, up to the end or to a zero key. */
  lemma {:induction false} ReadIsWhole(fields: seq<Field>, s: seq<byte>, c: HeapCursor)
    requires HeapTable(fields) && ReadLoop(fields, s, c).Done? && KeysMatch(fields, Keys(s))
    ensures WholeRecords(s) <==> !EndsAtZeroKey(s)
    decreases |s|
  {
    hide HeapTable, Varint32, Skip, ReadRecord, KeyMatches;
    if s != [] && Varint32(s).val != 0 {
      var key := Varint32(s);
      assert KeyMatches(fields, Keys(s)[0]);
      RecordFrames(fields, key.val, key.rest, c);
      var r := ReadRecord(fields, key.val / 8, key.val % 8, key.rest, c);
      KeysBehind(fields, s, r.rest);
      ReadIsWhole(fields, r.rest, r.val);
    }
  }

  // ------------------------------------------------------------ replacement

  /** A record of a single pointer depends on nothing that it pointed to before, and leaves one item. */
  lemma PointerRecord(fields: seq<Field>, i: nat, wireType: nat, s: seq<byte>, c: HeapCursor)
    requires HeapTable(fields) && i < |fields| == |c.cells| && wireType < 8
    requires fields[i].atype.Pointer? && !fields[i].htype.Repeated? && !fields[i].htype.Oneof?
    ensures HeapField(fields[i])
    ensures var r := ReadSingle(fields[i], s);
            ReadLoop(fields, EncVarint(fields[i].tag * 8 + wireType) + s, c)
            == if r.Fail? then Fail
               else ReadLoop(fields, r.rest,
                             HeapCursor(c.cells[i := Ptr(r.val)],
                                        if fields[i].htype.Required? then c.seen + {i} else c.seen,
                                        c.fixedAt, c.fixedCount))
  {
    hide EncVarint, ReadSingle, ReadLoop, HeapTable, HeapField;
    LoopOnRow(fields, i, wireType, s, c);
  }

  /** So of two submessages for one pointer only the second counts, unlike for a submessage that lies in the
      struct itself. */
  lemma LastPointerWins(fields: seq<Field>, i: nat, a: seq<byte>, b: seq<byte>, t: seq<byte>, c: HeapCursor)
    requires HeapTable(fields) && i < |fields| == |c.cells| && |a| < TWO_32 && HeapField(fields[i])
    requires fields[i].atype.Pointer? && !fields[i].htype.Repeated? && !fields[i].htype.Oneof?
    requires fields[i].ltype.Submessage? && fields[i].dataSize > 0
    requires ReadSub(fields[i], Delimited(a), EraseCells(InitialCells(fields[i].sub))).Done?
    ensures var key := EncVarint(fields[i].tag * 8 + WT_STRING);
            ReadLoop(fields, key + (Delimited(a) + (key + (Delimited(b) + t))), c)
            == ReadLoop(fields, key + (Delimited(b) + t), c)
  {
    hide EncVarint, ReadLoop, HeapTable, HeapField, Delimited, ReadSub, ReadSingle;
    var f, key := fields[i], EncVarint(fields[i].tag * 8 + WT_STRING);
    var more := key + (Delimited(b) + t);
    SingleExtends(f, a, more);
    PointerRecord(fields, i, WT_STRING, Delimited(a) + more, c);
    var r := ReadSingle(f, Delimited(a) + more);
    var c' := HeapCursor(c.cells[i := Ptr(r.val)], if f.htype.Required? then c.seen + {i} else c.seen,
                         c.fixedAt, c.fixedCount);
    PointerRecord(fields, i, WT_STRING, Delimited(b) + t, c');
    PointerRecord(fields, i, WT_STRING, Delimited(b) + t, c);
    var q := ReadSingle(f, Delimited(b) + t);
    if q.Done? { assert c'.cells[i := Ptr(q.val)] == c.cells[i := Ptr(q.val)]; }
  }

  lemma SingleExtends(f: Field, a: seq<byte>, t: seq<byte>)
    requires HeapField(f) && f.ltype.Submessage? && f.dataSize > 0 && |a| < TWO_32
    requires ReadSub(f, Delimited(a), EraseCells(InitialCells(f.sub))).Done?
    ensures ReadSingle(f, Delimited(a) + t).Done? && ReadSingle(f, Delimited(a) + t).rest == t
  {
    hide Delimited, ReadDelimited, ReadMsg, DefaultCells, EraseCells, InitialCells;
    DelimitedRoundTrip(a, []);
    assert Delimited(a) + [] == Delimited(a);
    DelimitedRoundTrip(a, t);
    SubOf(f);
    assert ReadSub(f, Delimited(a) + t, EraseCells(InitialCells(f.sub))).Done?;
    assert ReadSub(f, Delimited(a) + t, EraseCells(InitialCells(f.sub))).rest == t;
    OneItemFits(f);
    assert ReadItem(f, Delimited(a) + t).Done?;
  }

  lemma OneItemFits(f: Field)
    requires HeapField(f) && f.dataSize > 0
    ensures SizesAllowed(f.dataSize, 1)
  {
  }

  // -------------------------------------------------- one record of each kind

  /** Row i was met and its cell stored. */
  function Stored(fields: seq<Field>, i: nat, cell: Cell, c: HeapCursor): HeapCursor
    requires i < |fields| == |c.cells|
  {
    HeapCursor(c.cells[Home(fields, i) := cell], if fields[i].htype.Required? then c.seen + {i} else c.seen,
               c.fixedAt, c.fixedCount)
  }

  lemma RowRecord(fields: seq<Field>, i: nat, wireType: nat, s: seq<byte>, c: HeapCursor)
    requires HeapTable(fields) && i < |fields| == |c.cells| && wireType < 8 && !fields[i].FixedCount()
    ensures HeapField(fields[i])
    ensures var r := ReadField(fields[i], wireType, s, c.cells[Home(fields, i)], c.fixedCount);
            r.Done? && r.val.counter == c.fixedCount ==>
              ReadLoop(fields, EncVarint(fields[i].tag * 8 + wireType) + s, c)
              == ReadLoop(fields, r.rest, Stored(fields, i, r.val.cell, c))
    ensures var r := ReadField(fields[i], wireType, s, c.cells[Home(fields, i)], c.fixedCount);
            r.Fail? ==> ReadLoop(fields, EncVarint(fields[i].tag * 8 + wireType) + s, c) == Fail
  {
    hide EncVarint, ReadField, ReadLoop, HeapTable, HeapField, Home;
    LoopOnRow(fields, i, wireType, s, c);
  }

  /** A submessage in the struct itself is decoded into what it holds. */
  lemma InlineRecord(fields: seq<Field>, i: nat, wireType: nat, body: seq<byte>, t: seq<byte>, c: HeapCursor)
    requires HeapTable(fields) && i < |fields| == |c.cells| && wireType < 8 && |body| < TWO_32
    requires Inline(fields[i]) && !fields[i].htype.Repeated? && c.cells[i].Nested?
    ensures HeapTable(fields[i].sub)
    ensures var r := ReadMsg(fields[i].sub, body, c.cells[i].cells);
            ReadLoop(fields, EncVarint(fields[i].tag * 8 + wireType) + (Delimited(body) + t), c)
            == if r.Fail? then Fail else ReadLoop(fields, t, Stored(fields, i, Nested(r.val), c))
  {
    hide EncVarint, ReadLoop, HeapTable, HeapField, Delimited, ReadDelimited, ReadMsg;
    TableRow(fields, i);
    DelimitedRoundTrip(body, t);
    RowRecord(fields, i, wireType, Delimited(body) + t, c);
  }

  /** A new entry of an array in the struct itself starts from its defaults, and there must be room for it. */
  lemma EntryRecord(fields: seq<Field>, i: nat, wireType: nat, body: seq<byte>, t: seq<byte>, c: HeapCursor)
    requires HeapTable(fields) && i < |fields| == |c.cells| && wireType < 8 && |body| < TWO_32
    requires Inline(fields[i]) && fields[i].htype.Repeated? && FramedCell(fields[i], c.cells[i])
    ensures HeapTable(fields[i].sub)
    ensures var sub, n, entries := fields[i].sub, c.cells[i].size, c.cells[i].entries;
            var input := EncVarint(fields[i].tag * 8 + wireType) + (Delimited(body) + t);
            if n >= fields[i].arraySize then ReadLoop(fields, input, c) == Fail
            else
              var r := ReadMsg(sub, body, DefaultCells(sub, entries[n].cells));
              ReadLoop(fields, input, c)
              == if r.Fail? then Fail
                 else ReadLoop(fields, t, Stored(fields, i, NestedMany(n + 1, entries[n := Nested(r.val)]), c))
  {
    hide EncVarint, ReadLoop, HeapTable, HeapField, Framed, ReadEntry;
    TableRow(fields, i);
    RowRecord(fields, i, wireType, Delimited(body) + t, c);
    EntryOutcome(fields[i], body, t, c.cells[i]);
  }

  lemma EntryOutcome(f: Field, body: seq<byte>, t: seq<byte>, c: Cell)
    requires HeapField(f) && Inline(f) && f.htype.Repeated? && FramedCell(f, c) && |body| < TWO_32 && HeapTable(f.sub)
    ensures var r := ReadEntry(f, Delimited(body) + t, c.size, c.entries);
            if c.size >= f.arraySize then r.Fail?
            else
              var m := ReadMsg(f.sub, body, DefaultCells(f.sub, c.entries[c.size].cells));
              r == if m.Fail? then Fail
                   else Done(NestedMany(c.size + 1, c.entries[c.size := Nested(m.val)]), t)
  {
    hide HeapTable, HeapField, Delimited, ReadDelimited, ReadMsg, DefaultCells, Framed;
    DelimitedRoundTrip(body, t);
  }

  lemma TableRow(fields: seq<Field>, i: nat)
    requires HeapTable(fields) && i < |fields|
    ensures HeapField(fields[i])
    ensures fields[i].ltype.Submessage? ==> HeapTable(fields[i].sub)
    ensures Inline(fields[i]) || (fields[i].atype.Pointer? && fields[i].htype.Repeated?) ==> !fields[i].FixedCount()
    ensures fields[i].htype.Oneof? ==> fields[i].atype.Pointer?
  {
    hide HeapTable;
    RowOfTable(fields, i);
  }

  /** One more entry of an allocated array goes behind the others, whatever they are. */
  lemma PointerEntryRecord(fields: seq<Field>, i: nat, wireType: nat, s: seq<byte>, c: HeapCursor)
    requires HeapTable(fields) && i < |fields| == |c.cells| && wireType < 8
    requires fields[i].atype.Pointer? && fields[i].htype.Repeated?
    requires !(wireType == WT_STRING && Packable(fields[i].ltype))
    requires c.cells[i].PtrMany? && c.cells[i].len == |ContentsOf(c.cells[i].items)| <= PB_SIZE_MAX
    ensures HeapField(fields[i])
    ensures var n, items, r := c.cells[i].len, ContentsOf(c.cells[i].items), ReadItem(fields[i], s);
            ReadLoop(fields, EncVarint(fields[i].tag * 8 + wireType) + s, c)
            == if r.Fail? || n == PB_SIZE_MAX || !SizesAllowed(fields[i].dataSize, n + 1) then Fail
               else ReadLoop(fields, r.rest, Stored(fields, i, PtrMany(n + 1, Live(0, items + [r.val])), c))
  {
    hide EncVarint, ReadLoop, HeapTable, HeapField, ReadOneMore, SizesAllowed;
    TableRow(fields, i);
    RowRecord(fields, i, wireType, s, c);
    OneMoreOutcome(fields[i], s, c.cells[i].len, c.cells[i].items);
  }

  lemma OneMoreOutcome(f: Field, s: seq<byte>, n: nat, p: Block)
    requires HeapField(f) && n == |ContentsOf(p)|
    ensures var r := ReadItem(f, s);
            ReadOneMore(f, s, n, p)
            == if r.Fail? || n == PB_SIZE_MAX || !SizesAllowed(f.dataSize, n + 1) then Fail
               else Done(PtrMany(n + 1, Live(0, ContentsOf(p) + [r.val])), r.rest)
  {
    hide HeapField, ReadItem, SizesAllowed;
    assert ContentsOf(p)[..n] == ContentsOf(p);
  }

  /** A union member takes the place of whatever the union pointed to; a selector that is no tag of the table is
      refused. */
  lemma MemberRecord(fields: seq<Field>, i: nat, wireType: nat, s: seq<byte>, c: HeapCursor)
    requires HeapTable(fields) && i < |fields| == |c.cells| && wireType < 8 && fields[i].htype.Oneof?
    ensures HeapField(fields[i])
    ensures var r := ReadSingle(fields[i], s);
            ReadLoop(fields, EncVarint(fields[i].tag * 8 + wireType) + s, c)
            == if r.Fail? || !c.cells[Home(fields, i)].PtrUnion? then Fail
               else ReadLoop(fields, r.rest, Stored(fields, i, PtrUnion(fields[i].tag, r.val), c))
  {
    hide EncVarint, ReadLoop, HeapTable, HeapField, ReadSingle, Home;
    TableRow(fields, i);
    RowRecord(fields, i, wireType, s, c);
  }

  /** An unknown record leaves no trace. */
  lemma UnknownRecord(fields: seq<Field>, r: seq<byte>, t: seq<byte>, c: HeapCursor)
    requires HeapTable(fields) && UnknownField(fields, r)
    ensures ReadLoop(fields, r + t, c) == ReadLoop(fields, t, c)
  {
    hide HeapTable, Varint32, Skip, ReadKnown, Lookup;
    var key := Varint32(r);
    Varint32Extends(r, t);
    SkipExtends(key.val % 8, key.rest, t);
    assert [] + t == t;
    SomeBytes(r);
    ReadLoopUnfolds(fields, r + t, c);
  }

  lemma SomeBytes(r: seq<byte>)
    requires Varint32(r).Done?
    ensures r != []
  {
  }

  /** A string or bytes value for a pointer may have any length that is in range. */
  lemma LeafExactly(f: Field, b: seq<byte>, t: seq<byte>)
    requires StringLike(f.ltype) && |b| < TWO_32
    ensures ReadLeaf(f, Delimited(b) + t)
            == if f.ltype.String? then if |b| < TWO_32 - 1 then Done((), t) else Fail
               else if |b| <= PB_SIZE_MAX && BYTES_HEADER + |b| <= SIZE_MAX then Done((), t) else Fail
  {
    hide Varint32, EncVarint;
    assert Delimited(b) + t == EncVarint(|b|) + (b + t);
    Varint32RoundTrip(|b|, b + t);
    assert (b + t)[|b|..] == t;
    AddSizeWraps(BYTES_HEADER, |b|);
  }

  // ------------------------------------------------------------ limits

  /** A record of a fixed-count array is refused while another one is not full. */
  lemma FixedRefused(fields: seq<Field>, i: nat, wireType: nat, s: seq<byte>, c: HeapCursor)
    requires HeapTable(fields) && i < |fields| && wireType < 8 && fields[i].FixedCount()
    requires 0 <= c.fixedAt < |fields| && c.fixedAt != i && c.fixedCount != fields[c.fixedAt].arraySize
    ensures ReadLoop(fields, EncVarint(fields[i].tag * 8 + wireType) + s, c) == Fail
  {
    hide EncVarint, ReadField, ReadLoop, HeapTable;
    LoopOnRow(fields, i, wireType, s, c);
  }

  lemma {:induction false} FillInRange(f: Field, body: seq<byte>, n: nat)
    requires HeapField(f) && !f.ltype.Submessage? && ReadFill(f, body, n).Done?
    ensures ReadFill(f, body, n).val == n || ReadFill(f, body, n).val <= f.arraySize
    decreases |body|
  {
    hide HeapField, DecScalar, View;
    if body != [] { FillInRange(f, DecScalar(View(f), body).rest, n + 1); }
  }

  /** No record raises a count beyond the array, nor that of an allocated array beyond PB_SIZE_MAX. */
  lemma CountInRange(f: Field, wireType: nat, s: seq<byte>, c: Cell, counter: nat)
    requires HeapField(f) && f.htype.Repeated? && ReadField(f, wireType, s, c, counter).Done?
    ensures var o := ReadField(f, wireType, s, c, counter).val;
            && (f.atype.Pointer? ==> o.cell.PtrMany? && c.PtrMany? && o.cell.len <= PB_SIZE_MAX)
            && (Inline(f) ==> c.NestedMany? && o.cell.NestedMany? && o.cell.size == c.size + 1 <= f.arraySize)
            && (f.atype.Static? && !f.ltype.Submessage? && c.Count? ==>
                  o.cell.Count? && (o.cell.n == c.n || o.cell.n <= f.arraySize))
            && (f.atype.Static? && !f.ltype.Submessage? && !c.Count? ==>
                  o.cell == c && (o.counter == counter || o.counter <= f.arraySize))
  {
    hide ReadDelimited, ReadSub, ReadStatic, ReadMany, DecScalar, View, HeapField, SizesAllowed;
    NoOther(f);
    if f.atype.Pointer? {
      ManyInRange(f, wireType, s, c.len, c.items);
    } else if !f.ltype.Submessage? {
      StaticInRange(f, wireType, s, if c.Count? then c.n else counter);
    }
  }

  lemma ManyInRange(f: Field, wireType: nat, s: seq<byte>, len: nat, p: Block)
    requires HeapField(f) && f.atype.Pointer? && f.htype.Repeated? && len <= PB_SIZE_MAX
    requires ReadMany(f, wireType, s, len, p).Done?
    ensures ReadMany(f, wireType, s, len, p).val.PtrMany? && ReadMany(f, wireType, s, len, p).val.len <= PB_SIZE_MAX
  {
    hide ReadDelimited, ReadItem, ReadPacked, HeapField, SizesAllowed;
  }

  lemma StaticInRange(f: Field, wireType: nat, s: seq<byte>, n: nat)
    requires HeapField(f) && !f.ltype.Submessage? && f.htype.Repeated? && ReadStatic(f, wireType, s, n).Done?
    ensures ReadStatic(f, wireType, s, n).val == n || ReadStatic(f, wireType, s, n).val <= f.arraySize
  {
    hide ReadDelimited, DecScalar, View, HeapField, ReadFill;
    if wireType == WT_STRING && Packable(f.ltype) { FillInRange(f, ReadDelimited(s).val, n); }
  }

  lemma NoOther(f: Field)
    requires HeapField(f) && f.htype.Repeated?
    ensures f.atype.Pointer? || f.atype.Static?
  {
  }

  /** A packed payload with a malformed element behind good ones is refused, wherever it goes. */
  lemma {:induction false} GarbageRefused(f: Field, g: Field, xs: seq<Value>, bad: seq<byte>, len: nat, capacity: nat)
    requires HeapField(f) && WellFormedField(g) && TwinField(f, g) && AllTravel(f, g, xs) && AllTyped(g, xs)
    requires f.htype.Repeated? && Packable(f.ltype) && !f.ltype.Submessage?
    requires bad != [] && DecScalar(View(f), bad).Fail?
    ensures ReadFill(f, EncPacked(g, xs) + bad, len).Fail?
    ensures f.dataSize > 0 && len <= capacity <= PB_SIZE_MAX ==>
              ReadPacked(f, EncPacked(g, xs) + bad, len, capacity).Fail?
    decreases |xs|
  {
    hide DecScalar, EncValue, TypedValue, EncodableValue, RoomValue, View, HeapField, WellFormedField, TwinField,
         Travels, SizesAllowed, Grown;
    if xs == [] {
      assert EncPacked(g, xs) + bad == bad;
    } else {
      TravelHead(f, g, xs);
      TwinParts(f, g);
      TravelParts(f, g, xs[0]);
      var rest := EncPacked(g, xs[1..]) + bad;
      assert EncPacked(g, xs) + bad == EncValue(g, xs[0]) + rest;
      EncNotEmpty(g, xs[0], rest);
      ScalarReads(f, g, xs[0], rest);
      GarbageRefused(f, g, xs[1..], bad, len + 1, 0);
      if f.dataSize > 0 && len < capacity <= PB_SIZE_MAX {
        GarbageRefused(f, g, xs[1..], bad, len + 1, capacity);
      } else if f.dataSize > 0 && len == capacity < PB_SIZE_MAX {
        var size := |EncPacked(g, xs) + bad|;
        GrownInRange(capacity, size, f.dataSize);
        GarbageRefused(f, g, xs[1..], bad, len + 1, Grown(capacity, size, f.dataSize));
      }
    }
  }

  // ---------------------------------------------------------- required rows

  lemma RecordSeen(fields: seq<Field>, key: nat, s: seq<byte>, c: HeapCursor)
    requires HeapTable(fields) && key / 8 >= 1 && ReadRecord(fields, key / 8, key % 8, s, c).Done?
    ensures forall i | 0 <= i < |fields| && fields[i].htype.Required? ::
              i in ReadRecord(fields, key / 8, key % 8, s, c).val.seen <==> i in c.seen || fields[i].tag == key / 8
  {
    hide Skip, ReadField, Varint32, Lookup;
    forall i | 0 <= i < |fields| ensures fields[i].tag == key / 8 <==> i == Lookup(fields, key / 8) {
      LookupUnique(fields, i);
    }
  }

  lemma {:induction false} SeenOccur(fields: seq<Field>, s: seq<byte>, c: HeapCursor)
    requires HeapTable(fields) && ReadLoop(fields, s, c).Done? && KeysMatch(fields, Keys(s))
    ensures forall i | 0 <= i < |fields| && fields[i].htype.Required? ::
              i in ReadLoop(fields, s, c).val.seen <==> i in c.seen || Occurs(fields[i].tag, Keys(s))
    decreases |s|
  {
    hide HeapTable, Varint32, Skip, ReadRecord, KeyMatches, Occurs;
    ReadLoopUnfolds(fields, s, c);
    if s == [] || Varint32(s).val == 0 {
      NoneOccur();
    } else {
      var key := Varint32(s);
      assert KeyMatches(fields, Keys(s)[0]);
      TagPositive(fields, key.val);
      RecordFrames(fields, key.val, key.rest, c);
      RecordSeen(fields, key.val, key.rest, c);
      var r := ReadRecord(fields, key.val / 8, key.val % 8, key.rest, c);
      KeysBehind(fields, s, r.rest);
      SeenOccur(fields, r.rest, r.val);
      forall tag: nat ensures Occurs(tag, Keys(s)) <==> tag == key.val / 8 || Occurs(tag, Keys(r.rest)) {
        OccursInMore(tag, key.val, Keys(r.rest));
      }
    }
  }

  lemma NoneOccur()
    ensures forall tag: nat :: !Occurs(tag, [])
  {
  }

  lemma TagPositive(fields: seq<Field>, key: nat)
    requires KeyMatches(fields, key)
    ensures key / 8 >= 1
  {
  }

  /** When the records can be decoded, the message is accepted exactly when the fixed-count array filled last is
      full and every required row with fewer than 64 others before it occurs. */
  lemma AcceptedExactly(fields: seq<Field>, s: seq<byte>, cells: seq<Cell>)
    requires HeapTable(fields) && KeysMatch(fields, Keys(s))
    requires ReadLoop(fields, s, HeapCursor(cells, {}, -1, 0)).Done?
    ensures var c := ReadLoop(fields, s, HeapCursor(cells, {}, -1, 0)).val;
            ReadMsg(fields, s, cells).Done?
            <==> && (0 <= c.fixedAt < |fields| ==> c.fixedCount == fields[c.fixedAt].arraySize)
                 && forall i | 0 <= i < |fields| && fields[i].htype.Required? && |Earlier(fields, i)| < 64 ::
                      Occurs(fields[i].tag, Keys(s))
  {
    hide HeapTable, ReadLoop, Keys, KeysMatch, Occurs, RequiredBefore, Earlier;
    SeenOccur(fields, s, HeapCursor(cells, {}, -1, 0));
    forall i | 0 <= i < |fields|
      ensures Tracked(fields, i) <==> fields[i].htype.Required? && |Earlier(fields, i)| < 64
    {
      CountedBefore(fields, i);
    }
  }

  // --------------------------------------------------- through the allocator

  lemma {:induction false} ShapedFramed(fields: seq<Field>, cells: seq<Cell>)
    requires HeapTable(fields) && Shaped(fields, cells)
    ensures Framed(fields, EraseCells(cells))
    decreases fields, 1
  {
    hide HeapField, EraseCell;
    forall i | 0 <= i < |fields| ensures FramedCell(fields[i], EraseCell(cells[i])) {
      assert HeapField(fields[i]) && ShapedCell(fields[i], cells[i]);
      ShapedCellFramed(fields[i], cells[i]);
    }
  }

  lemma {:induction false} ShapedCellFramed(f: Field, c: Cell)
    requires HeapField(f) && ShapedCell(f, c)
    ensures FramedCell(f, EraseCell(c))
    decreases f, 0
  {
    hide HeapTable, Shaped, Framed, OkCells, EraseBlock;
    if Inline(f) {
      if f.htype.Repeated? {
        forall k | 0 <= k < |c.entries|
          ensures EraseCell(c.entries[k]).Nested? && Framed(f.sub, EraseCell(c.entries[k]).cells)
        {
          assert OkItem(f, c.entries[k]);
          OkShaped(f.sub, c.entries[k].cells);
          ShapedFramed(f.sub, c.entries[k].cells);
        }
      } else {
        ShapedFramed(f.sub, c.cells);
      }
    }
  }

  /** Decoding an encoded struct with allocation, over whatever the destination held: unless the allocator
      refuses, it succeeds, reads everything, and leaves exactly the shape of what was sent. */
  method Receive(h: Heap, hf: seq<Field>, sf: seq<Field>, slots: seq<Slot>, cells: seq<Cell>,
                 ghost frame: multiset<nat>)
    returns (ok: bool, cells': seq<Cell>)
    requires HeapTable(hf) && WellFormed(sf) && Twins(hf, sf) && Typed(sf, slots) && Shaped(hf, cells)
    requires SendableMsg(sf, slots) && RoomMsg(sf, slots)
    requires h.Has(frame, multiset{})
    modifies h
    ensures OkCells(hf, cells') && h.Has(frame, Ids(cells'))
    ensures ok || h.refusals > old(h.refusals)
    ensures Framed(hf, EraseCells(cells))
    ensures ok ==> EraseCells(cells') == Shape(hf, sf, slots, EraseCells(cells))
  {
    hide HeapTable, WellFormed, Typed, Twins, Framed, Shaped, OkCells, Ids, SendableMsg, RoomMsg, EncMsg, Shape,
         ReadMsg, EraseCells, DefaultCells, Heap.Valid;
    ShapedFramed(hf, cells);
    MessageReads(hf, sf, slots, EraseCells(cells));
    var input := EncMsg(sf, slots);
    var s := new InStream(input, 0, |input|);
    assert s.Rest() == input;
    ok, cells' := DecodeMessage(h, s, hf, cells, frame);
  }
}
