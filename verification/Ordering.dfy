/** The order of records: those of different members may change places, so the entries of an array may be
    spread over a message in any way, and rows that do not occur keep what they held. */
module Ordering {
  import opened Bits
  import opened Wire
  import opened Descriptors
  import opened Encoding
  import opened Decoding
  import opened Merging
  import opened Occurrence
  import opened Boundaries
  import opened Canonical
  import opened Arrays
  import opened RoundTrip

  // ------------------------------------------------ a record and its own slot

  /** Two states agree on everything that a record of field i looks at. */
  predicate AgreeOn(fields: seq<Field>, i: nat, c: Cursor, d: Cursor)
    requires CursorOk(fields, c) && CursorOk(fields, d) && i < |fields|
  {
    && c.slots[Home(fields, i)] == d.slots[Home(fields, i)]
    && (fields[i].FixedCount() ==> c.fixedAt == d.fixedAt && c.fixedCount == d.fixedCount)
  }

  /** State d after field i changed as from c to c': its own slot, and the progress of its array. */
  function Changed(fields: seq<Field>, i: nat, c': Cursor, d: Cursor): Cursor
    requires i < |fields| && |c'.slots| == |d.slots| == |fields|
  {
    var f := fields[i];
    Cursor(d.slots[Home(fields, i) := c'.slots[Home(fields, i)]],
           if f.htype.Required? then d.seen + {i} else d.seen,
           if f.FixedCount() then c'.fixedAt else d.fixedAt,
           if f.FixedCount() then c'.fixedCount else d.fixedCount)
  }

  lemma FillLocal(fields: seq<Field>, i: nat, c: Cursor, d: Cursor)
    requires WellFormed(fields) && CursorOk(fields, c) && CursorOk(fields, d) && i < |fields|
    requires AgreeOn(fields, i, c, d)
    requires fields[i].htype.Repeated? && (fields[i].FixedCount() ==> c.fixedAt == i)
    ensures FillAt(fields, i, c) == FillAt(fields, i, d)
  {
  }

  lemma BaseLocal(fields: seq<Field>, i: nat, c: Cursor, d: Cursor)
    requires WellFormed(fields) && CursorOk(fields, c) && CursorOk(fields, d) && i < |fields|
    requires AgreeOn(fields, i, c, d)
    requires fields[i].FixedCount() ==> c.fixedAt == i
    requires fields[i].htype.Repeated? ==> FillAt(fields, i, c).size < fields[i].arraySize
    ensures fields[i].htype.Repeated? ==> FillAt(fields, i, d) == FillAt(fields, i, c)
    ensures BaseValue(fields, i, d) == BaseValue(fields, i, c)
  {
    hide Typed, WellFormed, TypedValue, WellFormedField, DefaultValue, ZeroValue;
  }

  lemma FieldLocal(fields: seq<Field>, i: nat, wireType: nat, s: seq<byte>, c: Cursor, d: Cursor)
    requires WellFormed(fields) && CursorOk(fields, c) && CursorOk(fields, d) && i < |fields|
    requires AgreeOn(fields, i, c, d)
    requires fields[i].FixedCount() ==> c.fixedAt == i
    ensures var r, q := DecField(fields, i, wireType, s, c), DecField(fields, i, wireType, s, d);
            && (r.Done? <==> q.Done?)
            && (r.Done? ==> && q.rest == r.rest && |r.val.slots| == |fields|
                            && q.val.slots == d.slots[Home(fields, i) := r.val.slots[Home(fields, i)]]
                            && q.val.seen == d.seen && q.val.fixedAt == d.fixedAt
                            && q.val.fixedCount == if fields[i].FixedCount() then r.val.fixedCount else d.fixedCount)
  {
    hide Typed, WellFormed, TypedSlot, TypedValue, WellFormedField, ReadDelimited, DecPacked, DecValue, BaseValue,
         Put, FillAt, FillOk;
    SlotsOf(fields, c);
    SlotsOf(fields, d);
    if fields[i].htype.Repeated? { FillLocal(fields, i, c, d); }
    if !(fields[i].htype.Repeated? && FillAt(fields, i, c).size >= fields[i].arraySize) { BaseLocal(fields, i, c, d); }
  }

  /** What a record does depends on its own slot only, and it changes nothing else. */
  lemma RecordLocal(fields: seq<Field>, key: nat, s: seq<byte>, c: Cursor, d: Cursor)
    requires WellFormed(fields) && CursorOk(fields, c) && CursorOk(fields, d) && key / 8 >= 1
    requires var i := Lookup(fields, key / 8); i < |fields| ==> AgreeOn(fields, i, c, d)
    ensures var i := Lookup(fields, key / 8);
            var r, q := DecRecord(fields, key / 8, key % 8, s, c), DecRecord(fields, key / 8, key % 8, s, d);
            && (r.Done? <==> q.Done?)
            && (r.Done? ==> && q.rest == r.rest && |r.val.slots| == |fields| == |d.slots|
                            && q.val == if i < |fields| then Changed(fields, i, r.val, d) else d)
  {
    hide Typed, WellFormed, Varint32, Skip, DecField, Lookup;
    var i := Lookup(fields, key / 8);
    SlotsOf(fields, c);
    SlotsOf(fields, d);
    if i < |fields| && MayEnter(fields, i, c) {
      FieldLocal(fields, i, key % 8, s, Enter(fields, i, c), Enter(fields, i, d));
      FieldLocal(fields, i, key % 8, s, Enter(fields, i, c), Enter(fields, i, c));
    }
  }

  // ------------------------------------------------------------- changing places

  /** The records of two rows do not get into each other's way: different homes, and not both
      fixed-count arrays, of which only one may be in progress. */
  predicate Apart(fields: seq<Field>, i: nat, j: nat) {
    i < |fields| && j < |fields| ==>
      Home(fields, i) != Home(fields, j) && !(fields[i].FixedCount() && fields[j].FixedCount())
  }

  lemma RecordsCommute(fields: seq<Field>, key1: nat, s1: seq<byte>, key2: nat, s2: seq<byte>, c: Cursor)
    requires WellFormed(fields) && CursorOk(fields, c) && key1 / 8 >= 1 && key2 / 8 >= 1
    requires Apart(fields, Lookup(fields, key1 / 8), Lookup(fields, key2 / 8))
    ensures var r1, r2 := DecRecord(fields, key1 / 8, key1 % 8, s1, c), DecRecord(fields, key2 / 8, key2 % 8, s2, c);
            && (r1.Done? ==> var q2 := DecRecord(fields, key2 / 8, key2 % 8, s2, r1.val);
                             (q2.Done? <==> r2.Done?) && (q2.Done? ==> q2.rest == r2.rest))
            && (r2.Done? ==> var q1 := DecRecord(fields, key1 / 8, key1 % 8, s1, r2.val);
                             (q1.Done? <==> r1.Done?) && (q1.Done? ==> q1.rest == r1.rest))
            && (r1.Done? && r2.Done? ==>
                  DecRecord(fields, key2 / 8, key2 % 8, s2, r1.val).val
                  == DecRecord(fields, key1 / 8, key1 % 8, s1, r2.val).val)
  {
    hide Typed, WellFormed, Lookup, DecRecord, Home;
    var i, j := Lookup(fields, key1 / 8), Lookup(fields, key2 / 8);
    var r1, r2 := DecRecord(fields, key1 / 8, key1 % 8, s1, c), DecRecord(fields, key2 / 8, key2 % 8, s2, c);
    RecordLocal(fields, key1, s1, c, c);
    RecordLocal(fields, key2, s2, c, c);
    if r1.Done? { RecordLocal(fields, key2, s2, c, r1.val); }
    if r2.Done? { RecordLocal(fields, key1, s1, c, r2.val); }
    if r1.Done? && r2.Done? && i < |fields| && j < |fields| {
      ChangesCommute(fields, i, j, r1.val, r2.val, c);
    }
  }

  lemma ChangesCommute(fields: seq<Field>, i: nat, j: nat, a: Cursor, b: Cursor, c: Cursor)
    requires i < |fields| && j < |fields| && Apart(fields, i, j)
    requires |a.slots| == |b.slots| == |c.slots| == |fields|
    requires a == Changed(fields, i, a, c) && b == Changed(fields, j, b, c)
    ensures Changed(fields, j, b, a) == Changed(fields, i, a, b)
  {
    hide Home;
    var x, y := Changed(fields, j, b, a), Changed(fields, i, a, b);
    var h, g := Home(fields, i), Home(fields, j);
    assert a.slots == c.slots[h := a.slots[h]] && b.slots == c.slots[g := b.slots[g]];
    assert x.slots == y.slots;
    assert x.seen == y.seen;
  }

  /** One whole record of a known row with a wire type of its own, or of an unknown tag. */
  predicate OneRecord(fields: seq<Field>, r: seq<byte>) {
    && Varint32(r).Done?
    && KeyMatches(fields, Varint32(r).val)
    && Skip(Varint32(r).val % 8, Varint32(r).rest) == Done((), [])
  }

  function RowOf(fields: seq<Field>, r: seq<byte>): (i: nat)
    requires OneRecord(fields, r)
    ensures i <= |fields|
  {
    Lookup(fields, Varint32(r).val / 8)
  }

  /** What one record makes of a state. */
  function Step(fields: seq<Field>, r: seq<byte>, c: Cursor): (q: Parse<Cursor>)
    requires WellFormed(fields) && CursorOk(fields, c) && OneRecord(fields, r)
    ensures q.Done? ==> CursorOk(fields, q.val)
  {
    var key := Varint32(r);
    DecRecord(fields, key.val / 8, key.val % 8, key.rest, c)
  }

  lemma LoopOnRecord(fields: seq<Field>, r: seq<byte>, t: seq<byte>, c: Cursor)
    requires WellFormed(fields) && CursorOk(fields, c) && OneRecord(fields, r)
    ensures var q := Step(fields, r, c);
            DecLoop(fields, r + t, c) == if q.Done? then DecLoop(fields, t, q.val) else Fail
  {
    hide Typed, WellFormed, Varint32, Skip, DecRecord, DecLoop;
    var key := Varint32(r);
    KeyNotZero(fields, key.val);
    Varint32Extends(r, t);
    NotEmpty(r);
    LoopStep(fields, r + t, c);
    if Step(fields, r, c).Done? {
      RecordSees(fields, key.val, key.rest, c);
      DecRecordExtends(fields, key.val / 8, key.val % 8, key.rest, t, c);
      assert [] + t == t;
    } else {
      RecordFails(fields, key.val, key.rest, t, c);
    }
  }

  lemma KeyNotZero(fields: seq<Field>, key: nat)
    requires KeyMatches(fields, key)
    ensures key / 8 >= 1 && key != 0
  {
  }

  lemma NotEmpty(r: seq<byte>)
    requires Varint32(r).Done?
    ensures r != []
  {
  }

  /** Two adjacent records of different members may change places. */
  lemma AdjacentCommute(fields: seq<Field>, r1: seq<byte>, r2: seq<byte>, t: seq<byte>, c: Cursor)
    requires WellFormed(fields) && CursorOk(fields, c) && OneRecord(fields, r1) && OneRecord(fields, r2)
    requires Apart(fields, RowOf(fields, r1), RowOf(fields, r2))
    ensures DecLoop(fields, r1 + (r2 + t), c) == DecLoop(fields, r2 + (r1 + t), c)
  {
    hide Typed, WellFormed, Varint32, DecRecord, DecLoop, Apart, Lookup, Skip, KeyMatches;
    LoopOnRecord(fields, r1, r2 + t, c);
    LoopOnRecord(fields, r2, r1 + t, c);
    KeyNotZero(fields, Varint32(r1).val);
    KeyNotZero(fields, Varint32(r2).val);
    RecordsCommute(fields, Varint32(r1).val, Varint32(r1).rest, Varint32(r2).val, Varint32(r2).rest, c);
    var q1, q2 := Step(fields, r1, c), Step(fields, r2, c);
    if q1.Done? { LoopOnRecord(fields, r2, t, q1.val); }
    if q2.Done? { LoopOnRecord(fields, r1, t, q2.val); }
  }

  /** Anywhere in a message, and whether or not it can be decoded. */
  lemma OrderIrrelevant(fields: seq<Field>, a: seq<byte>, r1: seq<byte>, r2: seq<byte>, b: seq<byte>, slots: seq<Slot>)
    requires WellFormed(fields) && Typed(fields, slots) && WholeRecords(a) && KeysMatch(fields, Keys(a))
    requires OneRecord(fields, r1) && OneRecord(fields, r2)
    requires Apart(fields, RowOf(fields, r1), RowOf(fields, r2))
    ensures DecMsg(fields, a + r1 + r2 + b, slots) == DecMsg(fields, a + r2 + r1 + b, slots)
  {
    hide Typed, WellFormed, DecLoop, WholeRecords, Keys, KeysMatch, OneRecord, Apart, RowOf, Complete;
    var c := Start(slots);
    var x, y := r1 + (r2 + b), r2 + (r1 + b);
    assert a + r1 + r2 + b == a + x && a + r2 + r1 + b == a + y;
    if DecLoop(fields, a, c).Fail? {
      LoopFails(fields, a, x, c);
      LoopFails(fields, a, y, c);
    } else {
      WholeRecordsDecode(fields, a, c);
      var c' := DecLoop(fields, a, c).val.c;
      LoopAfterRecords(fields, a, x, c, c');
      LoopAfterRecords(fields, a, y, c, c');
      AdjacentCommute(fields, r1, r2, b, c');
    }
  }

  // ------------------------------------------------------------ rows not sent

  /** No key belongs to a member that shares this home. */
  predicate NoneAt(fields: seq<Field>, h: nat, keys: seq<nat>) {
    forall k | 0 <= k < |keys| :: AwayFrom(fields, h, keys[k])
  }

  predicate AwayFrom(fields: seq<Field>, h: nat, key: nat) {
    var i := Lookup(fields, key / 8);
    i < |fields| ==> Home(fields, i) != h
  }

  /** A member of which no record occurs keeps what it held. */
  lemma {:induction false} UnsentKept(fields: seq<Field>, h: nat, s: seq<byte>, c: Cursor)
    requires WellFormed(fields) && CursorOk(fields, c) && h < |fields|
    requires DecLoop(fields, s, c).Done? && KeysMatch(fields, Keys(s)) && NoneAt(fields, h, Keys(s))
    ensures |c.slots| == |DecLoop(fields, s, c).val.c.slots| == |fields|
    ensures DecLoop(fields, s, c).val.c.slots[h] == c.slots[h]
    decreases |s|
  {
    hide Typed, WellFormed, Varint32, Skip, DecRecord, KeyMatches, AwayFrom;
    SlotsOf(fields, c);
    if s != [] && Varint32(s).val != 0 {
      var key := Varint32(s);
      assert KeyMatches(fields, Keys(s)[0]) && AwayFrom(fields, h, Keys(s)[0]);
      LoopStep(fields, s, c);
      RecordSees(fields, key.val, key.rest, c);
      RecordAway(fields, h, key.val, key.rest, c);
      var r := DecRecord(fields, key.val / 8, key.val % 8, key.rest, c);
      KeysBehind(fields, s, r.rest);
      NoneBehind(fields, h, s, r.rest);
      UnsentKept(fields, h, r.rest, r.val);
    }
  }

  lemma SlotsOf(fields: seq<Field>, c: Cursor)
    requires CursorOk(fields, c)
    ensures |c.slots| == |fields|
  {
  }

  lemma RecordAway(fields: seq<Field>, h: nat, key: nat, s: seq<byte>, c: Cursor)
    requires WellFormed(fields) && CursorOk(fields, c) && KeyMatches(fields, key) && h < |fields|
    requires AwayFrom(fields, h, key) && DecRecord(fields, key / 8, key % 8, s, c).Done?
    ensures var r := DecRecord(fields, key / 8, key % 8, s, c);
            |c.slots| == |r.val.slots| == |fields| && r.val.slots[h] == c.slots[h]
  {
    hide Typed, WellFormed, DecRecord, Lookup, Home;
    KeyNotZero(fields, key);
    SlotsOf(fields, c);
    RecordLocal(fields, key, s, c, c);
  }

  lemma NoneBehind(fields: seq<Field>, h: nat, s: seq<byte>, rest: seq<byte>)
    requires s != [] && Varint32(s).Done? && Varint32(s).val != 0 && NoneAt(fields, h, Keys(s))
    requires var key := Varint32(s); Skip(key.val % 8, key.rest) == Done((), rest)
    ensures NoneAt(fields, h, Keys(rest))
  {
    hide Varint32, Skip, AwayFrom;
    var more := Keys(rest);
    assert Keys(s) == [Varint32(s).val] + more;
    forall k | 0 <= k < |more| ensures AwayFrom(fields, h, more[k]) {
      assert more[k] == Keys(s)[k + 1];
    }
  }

  /** A fixed-count array that is not sent keeps what it held, but for the zero stored over its start. */
  lemma UnsentFixedArray(fields: seq<Field>, i: nat, s: seq<byte>, prior: seq<Slot>)
    requires WellFormed(fields) && Typed(fields, prior) && i < |fields| && fields[i].FixedCount()
    requires KeysMatch(fields, Keys(s)) && !Occurs(fields[i].tag, Keys(s))
    requires WellFormedField(fields[i]) && |prior| == |fields| && TypedSlot(fields, i, prior[i])
    requires DecMsg(fields, s, Defaults(fields, prior)).Done?
    ensures |DecMsg(fields, s, Defaults(fields, prior)).val| == |fields|
    ensures DecMsg(fields, s, Defaults(fields, prior)).val[i]
            == Many(fields[i].arraySize, StoredOver(fields[i], prior[i].items))
  {
    hide Typed, WellFormed, TypedSlot, WellFormedField, DecLoop, Keys, KeysMatch, StoredOver;
    forall k | 0 <= k < |Keys(s)| ensures AwayFrom(fields, i, Keys(s)[k]) {
      OnlyItself(fields, i, Keys(s)[k]);
    }
    UnsentKept(fields, i, s, Start(Defaults(fields, prior)));
  }

  lemma OnlyItself(fields: seq<Field>, i: nat, key: nat)
    requires i < |fields| && !fields[i].htype.Oneof? && key / 8 != fields[i].tag
    ensures AwayFrom(fields, i, key)
  {
  }

  // --------------------------------------------- arrays spread over a message

  /** A packed run or a single entry of elements that can be sent. */
  predicate PartOk(f: Field, ch: Chunk)
    requires WellFormedField(f)
  {
    && AllTyped(f, ch.Elems()) && AllSendable(f, ch.Elems())
    && (ch.Packed? ==> Packable(f.ltype) && |EncPacked(f, ch.elems)| < TWO_32)
  }

  lemma PartIsChunk(f: Field, ch: Chunk)
    requires WellFormedField(f) && PartOk(f, ch)
    ensures ChunkOk(f, ch)
  {
    hide TypedValue, WellFormedField, SendableValue, Decodes, EncPacked;
    var elems := ch.Elems();
    forall k | 0 <= k < |elems| ensures Decodes(f, elems[k]) {
      ValueRoundTrip(f, elems[k]);
    }
  }

  lemma VarintSkips(v: nat)
    ensures Skip(WT_VARINT, EncVarint(v)) == Done((), [])
  {
    hide EncVarint, Wire.SkipVarint;
    EncVarintDenotes(v, []);
    assert EncVarint(v) + [] == EncVarint(v);
    SkipVarintFrame(EncVarint(v));
    assert Wire.SkipVarint(EncVarint(v)).val == ();
  }

  lemma DelimitedSkips(body: seq<byte>)
    requires |body| < TWO_32
    ensures Skip(WT_STRING, Delimited(body)) == Done((), [])
  {
    hide Delimited, ReadDelimited;
    DelimitedRoundTrip(body, []);
    assert Delimited(body) + [] == Delimited(body);
  }

  /** Skipping knows where the encoding of a value ends. */
  lemma ValueSkips(f: Field, v: Value)
    requires WellFormedField(f) && TypedValue(f, v) && SendableValue(f, v)
    ensures Skip(WireTypeOf(f.ltype), EncValue(f, v)) == Done((), [])
  {
    hide EncVarint, Delimited, Skip, WellFormed, Typed, SendableMsg;
    match f.ltype
    case Bool => VarintSkips(if v.n != 0 then 1 else 0);
    case Varint => VarintSkips(AsUnsigned(v.n));
    case UVarint => VarintSkips(v.n);
    case SVarint => VarintSkips(ZigZag(v.n));
    case Fixed32 => WordSkips(v.n, 4);
    case Fixed64 => WordSkips(v.n, 8);
    case Bytes => DelimitedSkips(v.b);
    case String => DelimitedSkips(CStr(v.b));
    case FixedLengthBytes => DelimitedSkips(v.b);
    case Submessage => DelimitedSkips(EncMsg(f.sub, v.slots));
  }

  lemma WordSkips(n: nat, width: nat)
    requires width == 4 || width == 8
    ensures Skip(if width == 4 then WT_32BIT else WT_64BIT, LittleEndian(n, width)) == Done((), [])
  {
  }

  lemma PartIsRecord(fields: seq<Field>, i: nat, ch: Chunk)
    requires WellFormed(fields) && i < |fields| && fields[i].htype.Repeated? && WellFormedField(fields[i])
    requires PartOk(fields[i], ch)
    ensures AllTyped(fields[i], ch.Elems())
    ensures OneRecord(fields, EncChunk(fields[i], ch)) && RowOf(fields, EncChunk(fields[i], ch)) == i
  {
    hide WellFormed, WellFormedField, TypedValue, EncVarint, Delimited, Varint32, Skip, EncValue, EncPacked,
         SendableValue;
    var f := fields[i];
    FieldParts(f);
    DistinctRows(fields);
    LookupUnique(fields, i);
    match ch
    case Packed(elems) =>
      KeyRoundTrip(f.tag, WT_STRING, Delimited(EncPacked(f, elems)));
      DelimitedSkips(EncPacked(f, elems));
    case Single(v) =>
      assert ch.Elems()[0] == v;
      KeyRoundTrip(f.tag, WireTypeOf(f.ltype), EncValue(f, v));
      ValueSkips(f, v);
  }

  /** A message cut into records: parts of array i, and anything else. */
  datatype Piece = Part(chunk: Chunk) | Other(record: seq<byte>)

  predicate PieceOk(fields: seq<Field>, i: nat, p: Piece)
    requires i < |fields| && WellFormedField(fields[i])
  {
    match p
    case Part(ch) => PartOk(fields[i], ch)
    case Other(r) => OneRecord(fields, r) && Apart(fields, i, RowOf(fields, r))
  }

  predicate PiecesOk(fields: seq<Field>, i: nat, ps: seq<Piece>)
    requires i < |fields| && WellFormedField(fields[i])
  {
    forall k | 0 <= k < |ps| :: PieceOk(fields, i, ps[k])
  }

  function EncPieces(fields: seq<Field>, i: nat, ps: seq<Piece>): seq<byte>
    requires i < |fields| && WellFormedField(fields[i]) && PiecesOk(fields, i, ps)
  {
    if ps == [] then [] else
      assert PieceOk(fields, i, ps[0]);
      (match ps[0] case Part(ch) => EncChunk(fields[i], ch) case Other(r) => r) + EncPieces(fields, i, ps[1..])
  }

  function Parts(ps: seq<Piece>): seq<Chunk> {
    if ps == [] then [] else (if ps[0].Part? then [ps[0].chunk] else []) + Parts(ps[1..])
  }

  function Others(ps: seq<Piece>): seq<byte> {
    if ps == [] then [] else (if ps[0].Other? then ps[0].record else []) + Others(ps[1..])
  }

  lemma {:induction false} PartsOk(fields: seq<Field>, i: nat, ps: seq<Piece>)
    requires i < |fields| && WellFormedField(fields[i]) && PiecesOk(fields, i, ps)
    ensures ChunksOk(fields[i], Parts(ps))
    decreases |ps|
  {
    hide WellFormedField, ChunkOk, PartOk;
    if ps != [] {
      assert PieceOk(fields, i, ps[0]);
      PartsOk(fields, i, ps[1..]);
      if ps[0].Part? { PartIsChunk(fields[i], ps[0].chunk); }
    }
  }

  /** A part of the array may move behind any other records. */
  lemma {:induction false} PastOthers(fields: seq<Field>, i: nat, ch: Chunk, ps: seq<Piece>, t: seq<byte>, c: Cursor)
    requires WellFormed(fields) && CursorOk(fields, c) && i < |fields| && fields[i].htype.Repeated?
    requires WellFormedField(fields[i]) && PartOk(fields[i], ch) && PiecesOk(fields, i, ps)
    ensures DecLoop(fields, EncChunk(fields[i], ch) + (Others(ps) + t), c)
            == DecLoop(fields, Others(ps) + (EncChunk(fields[i], ch) + t), c)
    decreases |ps|
  {
    hide WellFormed, WellFormedField, Typed, DecLoop, PartOk, OneRecord, RowOf, Apart, Step, EncChunk;
    PartIsRecord(fields, i, ch);
    var e := EncChunk(fields[i], ch);
    if ps == [] {
      assert Others(ps) + t == t && Others(ps) + (e + t) == e + t;
    } else {
      assert PieceOk(fields, i, ps[0]);
      var x := Others(ps[1..]) + t;
      if ps[0].Part? {
        assert Others(ps) == Others(ps[1..]);
        PastOthers(fields, i, ch, ps[1..], t, c);
      } else {
        var r := ps[0].record;
        var y := Others(ps[1..]) + (e + t);
        assert Others(ps) + t == r + x && Others(ps) + (e + t) == r + y;
        AdjacentCommute(fields, e, r, x, c);
        LoopOnRecord(fields, r, e + x, c);
        LoopOnRecord(fields, r, y, c);
        if Step(fields, r, c).Done? { PastOthers(fields, i, ch, ps[1..], t, Step(fields, r, c).val); }
      }
    }
  }

  /** The parts of the array may all be gathered behind the other records. */
  lemma {:induction false} Gathered(fields: seq<Field>, i: nat, ps: seq<Piece>, t: seq<byte>, c: Cursor)
    requires WellFormed(fields) && CursorOk(fields, c) && i < |fields| && fields[i].htype.Repeated?
    requires WellFormedField(fields[i]) && PiecesOk(fields, i, ps) && ChunksOk(fields[i], Parts(ps))
    ensures DecLoop(fields, EncPieces(fields, i, ps) + t, c)
            == DecLoop(fields, Others(ps) + (EncChunks(fields[i], Parts(ps)) + t), c)
    decreases |ps|
  {
    hide WellFormed, WellFormedField, Typed, DecLoop, PartOk, ChunkOk, OneRecord, RowOf, Apart, Step, EncChunk;
    if ps == [] {
      assert [] + t == t && [] + ([] + t) == t;
    } else {
      assert PieceOk(fields, i, ps[0]);
      var more := ps[1..];
      PartsOk(fields, i, more);
      var x, z := EncPieces(fields, i, more) + t, EncChunks(fields[i], Parts(more)) + t;
      var y := Others(more) + z;
      if ps[0].Other? {
        var r := ps[0].record;
        assert EncPieces(fields, i, ps) + t == r + x;
        assert Parts(ps) == Parts(more) && Others(ps) + z == r + y;
        LoopOnRecord(fields, r, x, c);
        LoopOnRecord(fields, r, y, c);
        if Step(fields, r, c).Done? { Gathered(fields, i, more, t, Step(fields, r, c).val); }
      } else {
        var ch := ps[0].chunk;
        PartIsRecord(fields, i, ch);
        var e := EncChunk(fields[i], ch);
        assert EncPieces(fields, i, ps) + t == e + x;
        assert Parts(ps) == [ch] + Parts(more) && Parts(ps)[1..] == Parts(more);
        assert EncChunks(fields[i], Parts(ps)) + t == e + z && Others(ps) == Others(more);
        LoopOnRecord(fields, e, x, c);
        LoopOnRecord(fields, e, y, c);
        if Step(fields, e, c).Done? { Gathered(fields, i, more, t, Step(fields, e, c).val); }
        PastOthers(fields, i, ch, more, z, c);
      }
    }
  }

  lemma StepKeepsIndex(fields: seq<Field>, i: nat, r: seq<byte>, c: Cursor)
    requires WellFormed(fields) && CursorOk(fields, c) && i < |fields| && fields[i].htype.Repeated?
    requires OneRecord(fields, r) && Apart(fields, i, RowOf(fields, r)) && Step(fields, r, c).Done?
    ensures NextIndex(fields, i, Step(fields, r, c).val) == NextIndex(fields, i, c)
  {
    hide WellFormed, Typed, DecRecord, Lookup, Varint32, Skip, KeyMatches, Home, TypedSlot;
    KeyNotZero(fields, Varint32(r).val);
    SlotsOf(fields, c);
    RecordLocal(fields, Varint32(r).val, Varint32(r).rest, c, c);
    HomeOfArray(fields, i);
  }

  lemma HomeOfArray(fields: seq<Field>, i: nat)
    requires i < |fields| && fields[i].htype.Repeated?
    ensures Home(fields, i) == i
  {
  }

  /** Behind the same other records, two splits of one element list are worth the same. */
  lemma {:induction false} SplitsBehind(fields: seq<Field>, i: nat, ps: seq<Piece>, xs: seq<Chunk>, ys: seq<Chunk>,
                                        t: seq<byte>, c: Cursor)
    requires WellFormed(fields) && CursorOk(fields, c) && i < |fields| && fields[i].htype.Repeated?
    requires WellFormedField(fields[i]) && PiecesOk(fields, i, ps)
    requires ChunksOk(fields[i], xs) && ChunksOk(fields[i], ys)
    requires xs != [] && ys != [] && Flatten(xs) == Flatten(ys) && NextIndex(fields, i, c) <= fields[i].arraySize
    ensures DecLoop(fields, Others(ps) + (EncChunks(fields[i], xs) + t), c)
            == DecLoop(fields, Others(ps) + (EncChunks(fields[i], ys) + t), c)
    decreases |ps|
  {
    hide WellFormed, WellFormedField, Typed, DecLoop, PartOk, ChunkOk, OneRecord, RowOf, Apart, Step, EncChunks,
         Flatten, NextIndex, MayEnter, AllRoom, Appended;
    var x, y := EncChunks(fields[i], xs) + t, EncChunks(fields[i], ys) + t;
    if ps == [] {
      ChunksDecode(fields, i, xs, t, c);
      ChunksDecode(fields, i, ys, t, c);
      assert Others(ps) + x == x && Others(ps) + y == y;
    } else {
      assert PieceOk(fields, i, ps[0]);
      if ps[0].Part? {
        assert Others(ps) == Others(ps[1..]);
        SplitsBehind(fields, i, ps[1..], xs, ys, t, c);
      } else {
        var r := ps[0].record;
        assert Others(ps) + x == r + (Others(ps[1..]) + x) && Others(ps) + y == r + (Others(ps[1..]) + y);
        LoopOnRecord(fields, r, Others(ps[1..]) + x, c);
        LoopOnRecord(fields, r, Others(ps[1..]) + y, c);
        if Step(fields, r, c).Done? {
          StepKeepsIndex(fields, i, r, c);
          SplitsBehind(fields, i, ps[1..], xs, ys, t, Step(fields, r, c).val);
        }
      }
    }
  }

  /** However an array is split into packed runs and single entries, and however these are spread among
      the other records of a message: if the elements and the others come in the same order, the result is
      the same. */
  lemma SpreadsInterchange(fields: seq<Field>, i: nat, ps: seq<Piece>, qs: seq<Piece>, t: seq<byte>, slots: seq<Slot>)
    requires WellFormed(fields) && Typed(fields, slots) && i < |fields| && fields[i].htype.Repeated?
    requires WellFormedField(fields[i]) && PiecesOk(fields, i, ps) && PiecesOk(fields, i, qs)
    requires Parts(ps) != [] && Parts(qs) != [] && Flatten(Parts(ps)) == Flatten(Parts(qs)) && Others(ps) == Others(qs)
    requires CursorOk(fields, Start(slots)) && NextIndex(fields, i, Start(slots)) <= fields[i].arraySize
    ensures DecMsg(fields, EncPieces(fields, i, ps) + t, slots) == DecMsg(fields, EncPieces(fields, i, qs) + t, slots)
  {
    hide WellFormed, WellFormedField, Typed, DecLoop, PiecesOk, ChunksOk, EncChunks, EncPieces, Parts, Others,
         Flatten, NextIndex, Complete;
    var c := Start(slots);
    PartsOk(fields, i, ps);
    PartsOk(fields, i, qs);
    Gathered(fields, i, ps, t, c);
    Gathered(fields, i, qs, t, c);
    SplitsBehind(fields, i, ps, Parts(ps), Parts(qs), t, c);
  }
}
