/** Single values and arrays on the wire: each scalar reads back, and every split of an element
    list into packed chunks and single entries fills the array the same way. */
module Arrays {
  import opened Bits
  import opened Wire
  import opened Descriptors
  import opened Encoding
  import opened Decoding
  import opened Canonical
  import opened Merging

  // ---------------------------------------------------------------- scalars

  lemma AsSignedInverse(n: int)
    requires -TWO_63 <= n < TWO_63
    ensures AsUnsigned(n) < TWO_64 && AsSigned(AsUnsigned(n)) == n
    ensures -TWO_31 <= n < TWO_31 ==> SignedFromWord(AsUnsigned(n), 4) == n
  {
  }

  lemma SignedRoundTrip(f: Field, n: int)
    requires IntWidth(f.dataSize) && FitsSigned(n, f.dataSize)
    ensures AsUnsigned(n) < TWO_64 && SignedFromWord(AsUnsigned(n), f.dataSize) == n
  {
    AsSignedInverse(n);
  }

  /** Every scalar that can be sent is read back from its encoding, whatever follows, exactly when it
      is not a string without room for its terminator. */
  lemma ScalarRoundTrip(f: Field, v: Value, prior: Value, t: seq<byte>)
    requires WellFormedField(f) && TypedValue(f, v) && TypedValue(f, prior) && !f.ltype.Submessage?
    requires EncodableValue(f, v)
    ensures DecScalar(f, EncValue(f, v) + t) == if RoomValue(f, v) then Done(CanonValue(f, v, prior), t) else Fail
  {
    hide Varint32, Varint64, ReadDelimited, ReadFixed, EncVarint, LittleEndian, Delimited;
    match f.ltype
    case Bool => Varint32RoundTrip(if v.n != 0 then 1 else 0, t);
    case Varint =>
      SignedRoundTrip(f, v.n);
      Varint64RoundTrip(AsUnsigned(v.n), t);
    case UVarint => Varint64RoundTrip(v.n, t);
    case SVarint =>
      ZigZagRoundTrip(v.n);
      Varint64RoundTrip(ZigZag(v.n), t);
    case Fixed32 =>
      Pow2Word();
      FixedRoundTrip(v.n, 4, t);
    case Fixed64 =>
      Pow2Long();
      FixedRoundTrip(v.n, 8, t);
    case Bytes => DelimitedRoundTrip(v.b, t);
    case String => DelimitedRoundTrip(CStr(v.b), t);
    case FixedLengthBytes => DelimitedRoundTrip(v.b, t);
  }

  /** A field of 1, 2, 4 or 8 bytes accepts a zigzag or unsigned value exactly when it fits. */
  lemma NarrowingExact(f: Field, n: int, t: seq<byte>)
    requires WellFormedField(f) && IntWidth(f.dataSize)
    ensures f.ltype.SVarint? && -TWO_63 <= n < TWO_63 ==>
              DecScalar(f, EncVarint(ZigZag(n)) + t) == if FitsSigned(n, f.dataSize) then Done(Int(n), t) else Fail
    ensures f.ltype.UVarint? && 0 <= n < TWO_64 ==>
              DecScalar(f, EncVarint(n) + t) == if FitsUnsigned(n, f.dataSize) then Done(Int(n), t) else Fail
  {
    hide Varint64, EncVarint;
    if -TWO_63 <= n < TWO_63 {
      ZigZagRoundTrip(n);
      Varint64RoundTrip(ZigZag(n), t);
    }
    if 0 <= n < TWO_64 { Varint64RoundTrip(n, t); }
  }

  /** Plain signed fields are different: below 8 bytes only the low 32 bits are looked at, and the
      field accepts exactly when that number fits its width. */
  lemma TruncationExact(f: Field, n: int, t: seq<byte>)
    requires WellFormedField(f) && IntWidth(f.dataSize) && f.ltype.Varint? && -TWO_63 <= n < TWO_63
    ensures var low := if f.dataSize == 8 then n else Truncated(n);
            DecScalar(f, EncVarint(AsUnsigned(n)) + t)
            == if FitsSigned(low, f.dataSize) then Done(Int(low), t) else Fail
  {
    hide Varint64, EncVarint;
    Varint64RoundTrip(AsUnsigned(n), t);
    AsSignedInverse(n);
    LowWord(n);
  }

  /** The int32 with the same low 32 bits. */
  function Truncated(n: int): (r: int)
    ensures -TWO_31 <= r < TWO_31
  {
    (n + TWO_31) % TWO_32 - TWO_31
  }

  lemma LowWord(n: int)
    requires -TWO_63 <= n < TWO_63
    ensures SignedFromWord(AsUnsigned(n), 4) == Truncated(n)
    ensures Truncated(n) == n <==> -TWO_31 <= n < TWO_31
  {
    var u := AsUnsigned(n);
    var q, low := u / TWO_32, u % TWO_32;
    assert u == q * TWO_32 + low;
    if low < TWO_31 {
      assert n + TWO_31 == (if n < 0 then q - TWO_32 else q) * TWO_32 + (low + TWO_31);
    } else {
      assert n + TWO_31 == (if n < 0 then q - TWO_32 else q) * TWO_32 + TWO_32 + (low - TWO_31);
    }
  }

  /** A string comes back from its own encoding exactly when its slot had room for a terminator. */
  lemma StringNeedsTerminator(f: Field, v: Value, t: seq<byte>)
    requires WellFormedField(f) && f.ltype.String? && TypedValue(f, v)
    ensures DecScalar(f, EncValue(f, v) + t) == (if |CStr(v.b)| < f.dataSize then Done(Blob(CStr(v.b)), t) else Fail)
  {
    DelimitedRoundTrip(CStr(v.b), t);
  }

  // ----------------------------------------------------- filling an array

  /** The value is read back from its encoding over any memory and in front of any bytes, exactly when
      it has room. */
  ghost predicate Decodes(f: Field, v: Value)
    requires WellFormedField(f) && TypedValue(f, v)
  {
    forall t: seq<byte>, prior | TypedValue(f, prior) ::
      DecValue(f, EncValue(f, v) + t, DefaultValue(f, prior))
      == if RoomValue(f, v) then Done(CanonValue(f, v, prior), t) else Fail
  }

  ghost predicate AllDecode(f: Field, elems: seq<Value>)
    requires WellFormedField(f) && AllTyped(f, elems)
  {
    forall k | 0 <= k < |elems| :: Decodes(f, elems[k])
  }

  /** The array with the elements read into it from its current position on. */
  function Filled(f: Field, a: Fill, elems: seq<Value>): (a': Fill)
    requires WellFormedField(f) && FillOk(f, a) && AllTyped(f, elems) && a.size + |elems| <= f.arraySize
    ensures FillOk(f, a') && a'.size == a.size + |elems|
  {
    Fill(Overwritten(f, a.items, a.size, elems), a.size + |elems|)
  }

  lemma TypedBoth(f: Field, xs: seq<Value>, ys: seq<Value>)
    requires AllTyped(f, xs) && AllTyped(f, ys)
    ensures AllTyped(f, xs + ys)
  {
    hide TypedValue;
  }

  lemma OverwrittenTwiceAt(f: Field, items: seq<Value>, at: nat, xs: seq<Value>, ys: seq<Value>, k: nat)
    requires WellFormedField(f) && AllTyped(f, items) && AllTyped(f, xs) && AllTyped(f, ys) && AllTyped(f, xs + ys)
    requires at + |xs| + |ys| <= |items| && k < |items|
    ensures Overwritten(f, Overwritten(f, items, at, xs), at + |xs|, ys)[k] == Overwritten(f, items, at, xs + ys)[k]
  {
    hide TypedValue, WellFormedField, CanonValue, Overwritten;
    if at <= k < at + |xs| {
      assert (xs + ys)[k - at] == xs[k - at];
    } else if at + |xs| <= k < at + |xs| + |ys| {
      assert (xs + ys)[k - at] == ys[k - (at + |xs|)];
    }
  }

  lemma FilledTwice(f: Field, a: Fill, xs: seq<Value>, ys: seq<Value>)
    requires WellFormedField(f) && FillOk(f, a) && AllTyped(f, xs) && AllTyped(f, ys)
    requires a.size + |xs| + |ys| <= f.arraySize
    ensures AllTyped(f, xs + ys)
    ensures Filled(f, Filled(f, a, xs), ys) == Filled(f, a, xs + ys)
  {
    hide TypedValue, WellFormedField, CanonValue, Overwritten;
    TypedBoth(f, xs, ys);
    forall k | 0 <= k < |a.items|
      ensures Filled(f, Filled(f, a, xs), ys).items[k] == Filled(f, a, xs + ys).items[k]
    {
      OverwrittenTwiceAt(f, a.items, a.size, xs, ys, k);
    }
  }

  /** Putting one decoded value. */
  lemma FilledOne(f: Field, a: Fill, v: Value)
    requires WellFormedField(f) && FillOk(f, a) && TypedValue(f, v) && a.size < f.arraySize
    ensures AllTyped(f, [v])
    ensures TypedValue(f, a.items[a.size])
    ensures Filled(f, a, [v]) == Put(f, a, CanonValue(f, v, a.items[a.size]))
  {
    hide TypedValue, WellFormedField, CanonValue, Overwritten;
    assert Overwritten(f, a.items, a.size, [v]) == a.items[a.size := CanonValue(f, v, a.items[a.size])];
  }

  lemma FilledNone(f: Field, a: Fill)
    requires WellFormedField(f) && FillOk(f, a) && a.size <= f.arraySize
    ensures Filled(f, a, []) == a
  {
    hide TypedValue, WellFormedField, CanonValue, Overwritten;
    assert Overwritten(f, a.items, a.size, []) == a.items;
  }

  /** A packed payload fills the array in order, and fails exactly when it does not fit. */
  lemma {:induction false} PackedFills(f: Field, elems: seq<Value>, a: Fill)
    requires WellFormedField(f) && Packable(f.ltype) && FillOk(f, a) && a.size <= f.arraySize
    requires AllTyped(f, elems) && AllDecode(f, elems)
    ensures DecPacked(f, EncPacked(f, elems), a)
            == if a.size + |elems| <= f.arraySize then Done(Filled(f, a, elems), []) else Fail
    decreases |elems|
  {
    hide TypedValue, WellFormedField, DecScalar, EncValue, CanonValue, Decodes, Overwritten, FillOk, RoomValue;
    if elems == [] {
      FilledNone(f, a);
    } else {
      var t := EncPacked(f, elems[1..]);
      assert EncPacked(f, elems) == EncValue(f, elems[0]) + t;
      assert Decodes(f, elems[0]);
      forall k | 0 <= k < |elems[1..]| ensures Decodes(f, elems[1..][k]) {
        assert elems[1..][k] == elems[k + 1];
      }
      if a.size < f.arraySize {
        PackedStep(f, elems[0], t, a);
        PackedFills(f, elems[1..], Filled(f, a, [elems[0]]));
        assert [elems[0]] + elems[1..] == elems;
        if a.size + |elems| <= f.arraySize { FilledTwice(f, a, [elems[0]], elems[1..]); }
      } else {
        EncNotEmpty(f, elems[0], t);
      }
    }
  }

  lemma EncNotEmpty(f: Field, v: Value, t: seq<byte>)
    requires WellFormedField(f) && TypedValue(f, v) && Packable(f.ltype)
    ensures EncValue(f, v) + t != []
  {
  }

  lemma PackedStep(f: Field, v: Value, t: seq<byte>, a: Fill)
    requires WellFormedField(f) && Packable(f.ltype) && FillOk(f, a) && a.size < f.arraySize
    requires TypedValue(f, v) && Decodes(f, v)
    ensures AllTyped(f, [v])
    ensures DecPacked(f, EncValue(f, v) + t, a) == DecPacked(f, t, Filled(f, a, [v]))
  {
    hide TypedValue, WellFormedField, DecScalar, EncValue, CanonValue, Overwritten;
    EncNotEmpty(f, v, t);
    FilledOne(f, a, v);
    var prior := a.items[a.size];
    assert DecValue(f, EncValue(f, v) + t, DefaultValue(f, prior)) == Done(CanonValue(f, v, prior), t);
    assert DecScalar(f, EncValue(f, v) + t) == Done(CanonValue(f, v, prior), t);
  }

  // --------------------------------------------------------------- chunks

  /** One record of a repeated field: a packed run of elements or a single entry. */
  datatype Chunk = Packed(elems: seq<Value>) | Single(elem: Value)
  {
    function Elems(): seq<Value> { if Packed? then elems else [elem] }
  }

  /** The elements decode on their own, and a packed run is legal for the type and length. */
  ghost predicate ChunkOk(f: Field, ch: Chunk)
    requires WellFormedField(f)
  {
    && AllTyped(f, ch.Elems()) && AllDecode(f, ch.Elems())
    && (ch.Packed? ==> Packable(f.ltype) && |EncPacked(f, ch.elems)| < TWO_32)
  }

  function EncChunk(f: Field, ch: Chunk): seq<byte>
    requires WellFormedField(f) && AllTyped(f, ch.Elems())
  {
    match ch
    case Packed(elems) => EncVarint(f.tag * 8 + WT_STRING) + Delimited(EncPacked(f, elems))
    case Single(v) => assert ch.Elems()[0] == v; EncTag(f) + EncValue(f, v)
  }

  /** The key of a record reads back as its tag and wire type. */
  lemma KeyRoundTrip(tag: nat, wireType: nat, t: seq<byte>)
    requires 1 <= tag <= MAX_TAG && wireType < 8
    ensures Varint32(EncVarint(tag * 8 + wireType) + t) == Done(tag * 8 + wireType, t)
    ensures (tag * 8 + wireType) / 8 == tag && (tag * 8 + wireType) % 8 == wireType
  {
    Varint32RoundTrip(tag * 8 + wireType, t);
  }

  /** The loop on a record of a known field: its key leads straight to the field's decoder. */
  lemma LoopOnField(fields: seq<Field>, i: nat, wireType: nat, s: seq<byte>, c: Cursor)
    requires WellFormed(fields) && CursorOk(fields, c) && i < |fields| && wireType < 8
    ensures WellFormedField(fields[i])
    ensures var input := EncVarint(fields[i].tag * 8 + wireType) + s;
            if !MayEnter(fields, i, c) then DecLoop(fields, input, c) == Fail
            else
              var r := DecField(fields, i, wireType, s, Enter(fields, i, c));
              DecLoop(fields, input, c) == if r.Done? then DecLoop(fields, r.rest, r.val) else Fail
  {
    hide Varint32, DecField, EncVarint, Typed;
    var f := fields[i];
    assert WellFormedField(f);
    KeyRoundTrip(f.tag, wireType, s);
    LookupUnique(fields, i);
    LoopStep(fields, EncVarint(f.tag * 8 + wireType) + s, c);
  }

  /** Position of the next entry of repeated field i. */
  function NextIndex(fields: seq<Field>, i: nat, c: Cursor): nat
    requires CursorOk(fields, c) && i < |fields| && fields[i].htype.Repeated?
  {
    FillAt(fields, i, Enter(fields, i, c)).size
  }

  /** Entering repeated field i and reading the elements into it. */
  function Appended(fields: seq<Field>, i: nat, c: Cursor, elems: seq<Value>): (c': Cursor)
    requires WellFormed(fields) && CursorOk(fields, c) && i < |fields| && fields[i].htype.Repeated?
    requires WellFormedField(fields[i])
    requires AllTyped(fields[i], elems) && NextIndex(fields, i, c) + |elems| <= fields[i].arraySize
    ensures CursorOk(fields, c')
    ensures NextIndex(fields, i, c') == NextIndex(fields, i, c) + |elems|
    ensures MayEnter(fields, i, c')
    ensures Enter(fields, i, c') == c'
    ensures FillAt(fields, i, c') == Filled(fields[i], FillAt(fields, i, Enter(fields, i, c)), elems)
  {
    var e := Enter(fields, i, c);
    WithFill(fields, i, e, Filled(fields[i], FillAt(fields, i, e), elems))
  }

  lemma WithFillTwice(fields: seq<Field>, i: nat, c: Cursor, a: Fill, b: Fill)
    requires WellFormed(fields) && CursorOk(fields, c) && i < |fields| && fields[i].htype.Repeated?
    requires fields[i].FixedCount() ==> c.fixedAt == i
    requires FillOk(fields[i], a) && FillOk(fields[i], b)
    ensures WithFill(fields, i, WithFill(fields, i, c, a), b) == WithFill(fields, i, c, b)
  {
    hide TypedSlot, WellFormed, FillOk;
    var x := Many(if fields[i].FixedCount() then fields[i].arraySize else a.size, a.items);
    var y := Many(if fields[i].FixedCount() then fields[i].arraySize else b.size, b.items);
    assert c.slots[i := x][i := y] == c.slots[i := y];
  }

  lemma AppendedTwice(fields: seq<Field>, i: nat, c: Cursor, xs: seq<Value>, ys: seq<Value>)
    requires WellFormed(fields) && CursorOk(fields, c) && i < |fields| && fields[i].htype.Repeated?
    requires WellFormedField(fields[i]) && AllTyped(fields[i], xs) && AllTyped(fields[i], ys)
    requires NextIndex(fields, i, c) + |xs| + |ys| <= fields[i].arraySize
    ensures AllTyped(fields[i], xs + ys)
    ensures Appended(fields, i, Appended(fields, i, c, xs), ys) == Appended(fields, i, c, xs + ys)
  {
    hide Typed, TypedValue, WellFormed, WellFormedField, Enter, FillAt, Filled, WithFill, FillOk, CursorOk;
    var e := Enter(fields, i, c);
    var a := FillAt(fields, i, e);
    FilledTwice(fields[i], a, xs, ys);
    WithFillTwice(fields, i, e, Filled(fields[i], a, xs), Filled(fields[i], a, xs + ys));
  }

  /** One chunk, in front of any other bytes: it is appended, or fails for lack of room in the array
      or for the terminator of a string. */
  lemma ChunkDecodes(fields: seq<Field>, i: nat, ch: Chunk, t: seq<byte>, c: Cursor)
    requires WellFormed(fields) && CursorOk(fields, c) && i < |fields| && fields[i].htype.Repeated?
    requires WellFormedField(fields[i]) && ChunkOk(fields[i], ch)
    requires NextIndex(fields, i, c) <= fields[i].arraySize
    ensures DecLoop(fields, EncChunk(fields[i], ch) + t, c)
            == if MayEnter(fields, i, c) && NextIndex(fields, i, c) + |ch.Elems()| <= fields[i].arraySize
                  && AllRoom(fields[i], ch.Elems())
               then DecLoop(fields, t, Appended(fields, i, c, ch.Elems())) else Fail
  {
    hide Typed, TypedValue, WellFormed, WellFormedField, Varint32, EncVarint, Delimited, DecLoop, DecField, DecValue,
         EncValue, CanonValue, EncPacked, Appended;
    var f := fields[i];
    match ch
    case Packed(elems) =>
      var body := Delimited(EncPacked(f, elems));
      assert EncChunk(f, ch) + t == EncVarint(f.tag * 8 + WT_STRING) + (body + t);
      LoopOnField(fields, i, WT_STRING, body + t, c);
      PackablesHaveRoom(f, elems);
      if MayEnter(fields, i, c) { PackedChunk(fields, i, elems, t, c); }
    case Single(v) =>
      assert ch.Elems()[0] == v;
      var body := EncValue(f, v);
      assert EncChunk(f, ch) + t == EncVarint(f.tag * 8 + WireTypeOf(f.ltype)) + (body + t);
      LoopOnField(fields, i, WireTypeOf(f.ltype), body + t, c);
      if MayEnter(fields, i, c) { SingleChunk(fields, i, v, t, c); }
  }

  lemma PackablesHaveRoom(f: Field, elems: seq<Value>)
    requires WellFormedField(f) && AllTyped(f, elems) && Packable(f.ltype)
    ensures AllRoom(f, elems)
  {
  }

  lemma PackedChunk(fields: seq<Field>, i: nat, elems: seq<Value>, t: seq<byte>, c: Cursor)
    requires WellFormed(fields) && CursorOk(fields, c) && i < |fields| && fields[i].htype.Repeated?
    requires WellFormedField(fields[i]) && ChunkOk(fields[i], Packed(elems))
    requires MayEnter(fields, i, c) && NextIndex(fields, i, c) <= fields[i].arraySize
    ensures DecField(fields, i, WT_STRING, Delimited(EncPacked(fields[i], elems)) + t, Enter(fields, i, c))
            == if NextIndex(fields, i, c) + |elems| <= fields[i].arraySize
               then Done(Appended(fields, i, c, elems), t) else Fail
  {
    hide Typed, TypedValue, WellFormed, WellFormedField, Varint32, ReadDelimited, EncVarint, Delimited, DecValue,
         EncValue, CanonValue, DecPacked, EncPacked, FillAt, WithFill, Filled, FillOk;
    DelimitedRoundTrip(EncPacked(fields[i], elems), t);
    PackedFills(fields[i], elems, FillAt(fields, i, Enter(fields, i, c)));
  }

  lemma SingleChunk(fields: seq<Field>, i: nat, v: Value, t: seq<byte>, c: Cursor)
    requires WellFormed(fields) && CursorOk(fields, c) && i < |fields| && fields[i].htype.Repeated?
    requires WellFormedField(fields[i]) && TypedValue(fields[i], v) && ChunkOk(fields[i], Single(v))
    requires MayEnter(fields, i, c) && NextIndex(fields, i, c) <= fields[i].arraySize
    ensures DecField(fields, i, WireTypeOf(fields[i].ltype), EncValue(fields[i], v) + t, Enter(fields, i, c))
            == if NextIndex(fields, i, c) < fields[i].arraySize && AllRoom(fields[i], Single(v).Elems())
               then Done(Appended(fields, i, c, Single(v).Elems()), t) else Fail
  {
    hide Typed, TypedValue, WellFormed, WellFormedField, Varint32, ReadDelimited, DecPacked, DecValue, EncValue,
         CanonValue, Filled, FillAt, WithFill, RoomValue;
    var f, e := fields[i], Enter(fields, i, c);
    var a := FillAt(fields, i, e);
    assert Single(v).Elems()[0] == v;
    assert Decodes(f, v);
    assert AllRoom(f, [v]) <==> RoomValue(f, v) by { OneRoom(f, v); }
    if a.size < f.arraySize {
      FilledOne(f, a, v);
      var prior := a.items[a.size];
      assert BaseValue(fields, i, e) == DefaultValue(f, prior);
      assert DecValue(f, EncValue(f, v) + t, DefaultValue(f, prior))
          == if RoomValue(f, v) then Done(CanonValue(f, v, prior), t) else Fail;
    }
  }

  lemma OneRoom(f: Field, v: Value)
    requires WellFormedField(f) && TypedValue(f, v)
    ensures AllTyped(f, [v]) && (AllRoom(f, [v]) <==> RoomValue(f, v))
  {
    assert [v][0] == v;
  }

  // ----------------------------------------- packed and unpacked interchange

  ghost predicate ChunksOk(f: Field, chunks: seq<Chunk>)
    requires WellFormedField(f)
  {
    forall k | 0 <= k < |chunks| :: ChunkOk(f, chunks[k])
  }

  function Flatten(chunks: seq<Chunk>): seq<Value> {
    if chunks == [] then [] else chunks[0].Elems() + Flatten(chunks[1..])
  }

  lemma {:induction false} FlattenTyped(f: Field, chunks: seq<Chunk>)
    requires WellFormedField(f) && ChunksOk(f, chunks)
    ensures AllTyped(f, Flatten(chunks))
  {
    hide TypedValue, WellFormedField, AllDecode;
    if chunks != [] {
      assert ChunkOk(f, chunks[0]);
      FlattenTyped(f, chunks[1..]);
    }
  }

  ghost function EncChunks(f: Field, chunks: seq<Chunk>): seq<byte>
    requires WellFormedField(f) && ChunksOk(f, chunks)
  {
    if chunks == [] then [] else
      assert ChunkOk(f, chunks[0]);
      EncChunk(f, chunks[0]) + EncChunks(f, chunks[1..])
  }

  lemma RoomSplit(f: Field, xs: seq<Value>, ys: seq<Value>)
    requires WellFormedField(f) && AllTyped(f, xs) && AllTyped(f, ys) && AllTyped(f, xs + ys)
    ensures AllRoom(f, xs + ys) <==> AllRoom(f, xs) && AllRoom(f, ys)
  {
    hide TypedValue, WellFormedField, RoomValue;
    forall k | 0 <= k < |ys| ensures (xs + ys)[|xs| + k] == ys[k] {
    }
    if AllRoom(f, xs + ys) {
      forall k | 0 <= k < |xs| ensures RoomValue(f, xs[k]) { assert (xs + ys)[k] == xs[k]; }
      forall k | 0 <= k < |ys| ensures RoomValue(f, ys[k]) { assert (xs + ys)[|xs| + k] == ys[k]; }
    }
  }

  /** A nonempty list of chunks is read as the concatenation of its elements: it is appended to
      the array when the total fits, and fails exactly when it does not or a string lacks room. */
  lemma {:induction false} ChunksDecode(fields: seq<Field>, i: nat, chunks: seq<Chunk>, t: seq<byte>, c: Cursor)
    requires WellFormed(fields) && CursorOk(fields, c) && i < |fields| && fields[i].htype.Repeated?
    requires WellFormedField(fields[i]) && ChunksOk(fields[i], chunks) && chunks != []
    requires NextIndex(fields, i, c) <= fields[i].arraySize
    ensures AllTyped(fields[i], Flatten(chunks))
    ensures DecLoop(fields, EncChunks(fields[i], chunks) + t, c)
            == if MayEnter(fields, i, c) && NextIndex(fields, i, c) + |Flatten(chunks)| <= fields[i].arraySize
                  && AllRoom(fields[i], Flatten(chunks))
               then DecLoop(fields, t, Appended(fields, i, c, Flatten(chunks))) else Fail
    decreases |chunks|
  {
    hide Typed, TypedValue, WellFormed, WellFormedField, DecLoop, CanonValue, ChunkOk, EncChunk, MayEnter, Enter,
         FillAt, Filled, AllRoom;
    var f, ch, more := fields[i], chunks[0], chunks[1..];
    FlattenTyped(f, chunks);
    assert ChunkOk(f, ch);
    FlattenTyped(f, more);
    var rest := EncChunks(f, more) + t;
    ChunkTyped(f, ch);
    assert EncChunks(f, chunks) + t == EncChunk(f, ch) + rest;
    ChunkDecodes(fields, i, ch, rest, c);
    var xs, ys := ch.Elems(), Flatten(more);
    RoomSplit(f, xs, ys);
    if more == [] {
      assert rest == t;
      assert Flatten(chunks) == xs;
    } else if MayEnter(fields, i, c) && NextIndex(fields, i, c) + |xs| <= f.arraySize && AllRoom(f, xs) {
      ChunksDecode(fields, i, more, t, Appended(fields, i, c, xs));
      if NextIndex(fields, i, c) + |Flatten(chunks)| <= f.arraySize {
        AppendedTwice(fields, i, c, xs, ys);
      }
    }
  }

  lemma ChunkTyped(f: Field, ch: Chunk)
    requires WellFormedField(f) && ChunkOk(f, ch)
    ensures AllTyped(f, ch.Elems())
  {
  }

  /** Two splits of one element list are interchangeable inside any message, before and after
      anything else; both overflow or neither. */
  lemma SplitsInterchange(fields: seq<Field>, i: nat, xs: seq<Chunk>, ys: seq<Chunk>, a: seq<byte>, t: seq<byte>,
                          slots: seq<Slot>, c: Cursor)
    requires WellFormed(fields) && Typed(fields, slots) && i < |fields| && fields[i].htype.Repeated?
    requires WellFormedField(fields[i]) && ChunksOk(fields[i], xs) && ChunksOk(fields[i], ys)
    requires xs != [] && ys != [] && Flatten(xs) == Flatten(ys)
    requires Records(fields, a, Start(slots), c) && CursorOk(fields, c)
    requires NextIndex(fields, i, c) <= fields[i].arraySize
    ensures DecMsg(fields, a + EncChunks(fields[i], xs) + t, slots)
            == DecMsg(fields, a + EncChunks(fields[i], ys) + t, slots)
  {
    hide Typed, TypedValue, WellFormed, WellFormedField, DecLoop, ChunkOk, ChunksOk, Complete, MayEnter, Enter,
         FillAt, NextIndex, Appended, AllRoom, EncChunks, Flatten, Records;
    ChunksDecode(fields, i, xs, t, c);
    ChunksDecode(fields, i, ys, t, c);
    var x, y := EncChunks(fields[i], xs), EncChunks(fields[i], ys);
    LoopAfterRecords(fields, a, x + t, Start(slots), c);
    LoopAfterRecords(fields, a, y + t, Start(slots), c);
    assert a + x + t == a + (x + t) && a + y + t == a + (y + t);
  }
}
