/** When a message is complete: fixed-count arrays filled one after the other, and the first 64 required rows
    present. */
module Completeness {
  import opened Bits
  import opened Wire
  import opened Descriptors
  import opened Decoding
  import opened Merging
  import opened Occurrence
  import opened Boundaries
  import opened Canonical
  import opened Arrays
  import opened Encoding

  // ------------------------------------------------------ fixed-count arrays

  /** No fixed-count array is in progress: none was begun, or the last one is full. */
  predicate Idle(fields: seq<Field>, c: Cursor)
    requires CursorOk(fields, c)
  {
    c.fixedAt < 0 || c.fixedCount == fields[c.fixedAt].arraySize
  }

  /** The records of a fixed-count array fill it from its first entry on, whatever it was filled with before,
      as long as they fit; the array is then in progress. Where another one is not full, they are refused. */
  lemma FixedFills(fields: seq<Field>, i: nat, chunks: seq<Chunk>, t: seq<byte>, c: Cursor)
    requires WellFormed(fields) && CursorOk(fields, c) && i < |fields| && fields[i].FixedCount() && c.fixedAt != i
    requires WellFormedField(fields[i]) && ChunksOk(fields[i], chunks) && chunks != []
    ensures AllTyped(fields[i], Flatten(chunks))
    ensures var n, s := |Flatten(chunks)|, EncChunks(fields[i], chunks) + t;
            if !Idle(fields, c) || n > fields[i].arraySize || !AllRoom(fields[i], Flatten(chunks)) then
              DecLoop(fields, s, c) == Fail
            else
              && NextIndex(fields, i, c) == 0
              && var c' := Appended(fields, i, c, Flatten(chunks));
              && DecLoop(fields, s, c) == DecLoop(fields, t, c')
              && c'.fixedAt == i && c'.fixedCount == n && c'.seen == c.seen
  {
    hide Typed, TypedValue, WellFormed, WellFormedField, DecLoop, CanonValue, ChunkOk, EncChunk, AllRoom, Overwritten;
    FlattenTyped(fields[i], chunks);
    assert NextIndex(fields, i, c) == 0;
    ChunksDecode(fields, i, chunks, t, c);
  }

  /** A message of such records alone is accepted exactly when they are as many as the array has entries and
      nothing is required. */
  lemma FixedAlone(fields: seq<Field>, i: nat, chunks: seq<Chunk>, slots: seq<Slot>)
    requires WellFormed(fields) && Typed(fields, slots) && i < |fields| && fields[i].FixedCount()
    requires WellFormedField(fields[i]) && ChunksOk(fields[i], chunks) && chunks != []
    ensures AllTyped(fields[i], Flatten(chunks))
    ensures DecMsg(fields, EncChunks(fields[i], chunks), slots).Done?
            <==> && |Flatten(chunks)| == fields[i].arraySize && AllRoom(fields[i], Flatten(chunks))
                 && RequiredSeen(fields, {})
  {
    hide Typed, TypedValue, WellFormed, WellFormedField, DecLoop, ChunkOk, ChunksOk, EncChunks, AllRoom, Appended,
         RequiredSeen, Flatten, NextIndex;
    var c := Start(slots);
    FixedFills(fields, i, chunks, [], c);
    assert EncChunks(fields[i], chunks) + [] == EncChunks(fields[i], chunks);
    if |Flatten(chunks)| <= fields[i].arraySize && AllRoom(fields[i], Flatten(chunks)) {
      LoopOfNothing(fields, Appended(fields, i, c, Flatten(chunks)));
    }
  }

  /** A second fixed-count array may begin only when the first one is full. */
  lemma FixedInTurn(fields: seq<Field>, i: nat, j: nat, xs: seq<Chunk>, ys: seq<Chunk>, t: seq<byte>, c: Cursor)
    requires WellFormed(fields) && CursorOk(fields, c) && i < |fields| && j < |fields| && i != j
    requires fields[i].FixedCount() && fields[j].FixedCount() && c.fixedAt == -1
    requires WellFormedField(fields[i]) && ChunksOk(fields[i], xs) && xs != []
    requires WellFormedField(fields[j]) && ChunksOk(fields[j], ys) && ys != []
    requires |Flatten(xs)| != fields[i].arraySize
    ensures DecLoop(fields, EncChunks(fields[i], xs) + (EncChunks(fields[j], ys) + t), c) == Fail
  {
    hide Typed, TypedValue, WellFormed, WellFormedField, DecLoop, ChunkOk, ChunksOk, EncChunks, AllRoom, Appended,
         Flatten, NextIndex;
    var s := EncChunks(fields[j], ys) + t;
    FixedFills(fields, i, xs, s, c);
    if |Flatten(xs)| < fields[i].arraySize && AllRoom(fields[i], Flatten(xs)) {
      FixedFills(fields, j, ys, t, Appended(fields, i, c, Flatten(xs)));
    }
  }

  /** Whatever the message, the fixed-count array that it filled last must be full. */
  lemma LastArrayFull(fields: seq<Field>, s: seq<byte>, slots: seq<Slot>)
    requires WellFormed(fields) && Typed(fields, slots) && DecMsg(fields, s, slots).Done?
    ensures DecLoop(fields, s, Start(slots)).Done? && CursorOk(fields, DecLoop(fields, s, Start(slots)).val.c)
    ensures Idle(fields, DecLoop(fields, s, Start(slots)).val.c)
  {
    hide Typed, WellFormed, DecLoop, RequiredSeen;
  }

  // ---------------------------------------------------------- required rows

  /** The required rows before row i. */
  function Earlier(fields: seq<Field>, i: nat): (r: set<nat>)
    requires i <= |fields|
  {
    set j: nat | j < i && fields[j].htype.Required?
  }

  lemma {:induction false} CountedBefore(fields: seq<Field>, i: nat)
    requires i <= |fields|
    ensures RequiredBefore(fields, i) == |Earlier(fields, i)|
  {
    if i > 0 {
      CountedBefore(fields, i - 1);
      if fields[i - 1].htype.Required? {
        assert Earlier(fields, i) == Earlier(fields, i - 1) + {i - 1};
      } else {
        assert Earlier(fields, i) == Earlier(fields, i - 1);
      }
    } else {
      assert Earlier(fields, i) == {};
    }
  }

  /** Without fixed-count arrays, a message whose records decode is accepted exactly when every required row
      occurs that has fewer than 64 others before it. */
  lemma First64Required(fields: seq<Field>, s: seq<byte>, slots: seq<Slot>)
    requires WellFormed(fields) && Typed(fields, slots) && NoFixedCountArrays(fields)
    requires DecLoop(fields, s, Start(slots)).Done? && KeysMatch(fields, Keys(s))
    ensures DecMsg(fields, s, slots).Done?
            <==> forall i | 0 <= i < |fields| && fields[i].htype.Required? && |Earlier(fields, i)| < 64 ::
                   Occurs(fields[i].tag, Keys(s))
  {
    hide Typed, WellFormed, DecLoop, Keys, KeysMatch, Occurs, RequiredBefore, Earlier;
    RequiredExactly(fields, s, slots);
    forall i | 0 <= i < |fields|
      ensures Tracked(fields, i) <==> fields[i].htype.Required? && |Earlier(fields, i)| < 64
    {
      CountedBefore(fields, i);
    }
    CursorAfter(fields, s, Start(slots));
  }

  lemma CursorAfter(fields: seq<Field>, s: seq<byte>, c: Cursor)
    requires WellFormed(fields) && CursorOk(fields, c) && NoFixedCountArrays(fields)
    ensures DecLoop(fields, s, c).Done? ==> FixedFull(fields, DecLoop(fields, s, c).val.c)
  {
    hide Typed, WellFormed, DecLoop;
  }

  // -------------------------------------------------------- malformed input

  /** What is decoded are whole records, up to the end or to a zero key: a key or a payload that is cut short
      is never accepted. */
  lemma {:induction false} DecodedIsWhole(fields: seq<Field>, s: seq<byte>, c: Cursor)
    requires WellFormed(fields) && CursorOk(fields, c)
    requires DecLoop(fields, s, c).Done? && KeysMatch(fields, Keys(s))
    ensures WholeRecords(s) <==> !EndsAtZeroKey(s)
    decreases |s|
  {
    hide Typed, WellFormed, Varint32, Skip, DecRecord, KeyMatches;
    if s != [] && Varint32(s).val != 0 {
      var key := Varint32(s);
      assert KeyMatches(fields, Keys(s)[0]);
      LoopStep(fields, s, c);
      RecordSees(fields, key.val, key.rest, c);
      var r := DecRecord(fields, key.val / 8, key.val % 8, key.rest, c);
      KeysBehind(fields, s, r.rest);
      DecodedIsWhole(fields, r.rest, r.val);
    }
  }

  /** A packed payload with a malformed element behind good ones is refused. */
  lemma {:induction false} GarbageRefused(f: Field, xs: seq<Value>, bad: seq<byte>, a: Fill)
    requires WellFormedField(f) && Packable(f.ltype) && FillOk(f, a) && AllTyped(f, xs) && AllDecode(f, xs)
    requires bad != [] && DecScalar(f, bad).Fail?
    ensures DecPacked(f, EncPacked(f, xs) + bad, a).Fail?
    decreases |xs|
  {
    hide TypedValue, WellFormedField, DecScalar, EncValue, CanonValue, Overwritten, Decodes;
    if xs == [] {
      assert EncPacked(f, xs) + bad == bad;
    } else {
      var rest := EncPacked(f, xs[1..]) + bad;
      assert EncPacked(f, xs) + bad == EncValue(f, xs[0]) + rest;
      EncNotEmpty(f, xs[0], rest);
      assert Decodes(f, xs[0]);
      if a.size < f.arraySize {
        PackedStep(f, xs[0], rest, a);
        GarbageRefused(f, xs[1..], bad, Filled(f, a, [xs[0]]));
      }
    }
  }

  /** A key of tag 0 finds no row in a table that has any, so its payload is skipped by its wire type; in an
      empty table the terminator answers to it, and a 32-bit varint is read whatever the wire type. */
  lemma ZeroTag(fields: seq<Field>, wireType: nat, s: seq<byte>, c: Cursor)
    requires WellFormed(fields) && CursorOk(fields, c) && 1 <= wireType < 8
    ensures DecLoop(fields, [wireType] + s, c)
            == if fields == [] then if Varint32(s).Done? then DecLoop(fields, Varint32(s).rest, c) else Fail
               else if Skip(wireType, s).Done? then DecLoop(fields, Skip(wireType, s).rest, c) else Fail
  {
    hide Typed, Skip, DecLoop, Varint32, Lookup, WellFormed;
    OneByteKey(wireType, s);
    LoopStep(fields, [wireType] + s, c);
    NoTagZero(fields);
  }

  lemma NoTagZero(fields: seq<Field>)
    requires WellFormed(fields)
    ensures Lookup(fields, 0) == |fields|
  {
    forall k | 0 <= k < |fields| ensures fields[k].tag != 0 { assert WellFormedField(fields[k]); }
  }

  lemma OneByteKey(b: byte, s: seq<byte>)
    requires b < 128
    ensures Varint32([b] + s) == Done(b, s)
  {
    assert ([b] + s)[1..] == s;
  }

  // ------------------------------------------------------------------ unions

  /** Rows lie in one union exactly when both are union members and the second one's offset is the marker. */
  lemma SameUnion(fields: seq<Field>, i: nat)
    requires 0 < i < |fields|
    ensures Home(fields, i) == Home(fields, i - 1)
            <==> fields[i - 1].htype.Oneof? && fields[i].htype.Oneof? && fields[i].dataOffset == PB_SIZE_MAX
  {
  }
}
