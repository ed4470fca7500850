/** Where records end, read off the bytes alone: when a message ends in a zero key, and what whole
    records are worth to the decoder when they cannot be decoded. */
module Boundaries {
  import opened Bits
  import opened Wire
  import opened Descriptors
  import opened Decoding
  import opened Merging
  import opened Occurrence

  // --------------------------------------------------------------- zero keys

  /** Skipping from key to key comes to a zero key. */
  predicate EndsAtZeroKey(s: seq<byte>)
    decreases |s|
  {
    s != [] && Varint32(s).Done? &&
    var key := Varint32(s);
    key.val == 0 ||
    var skipped := Skip(key.val % 8, key.rest);
    skipped.Done? && EndsAtZeroKey(skipped.rest)
  }

  /** For matching wire types the decoder stops early exactly when skipping comes to a zero key. */
  lemma {:induction false} TerminatedIff(fields: seq<Field>, s: seq<byte>, c: Cursor)
    requires WellFormed(fields) && CursorOk(fields, c)
    requires DecLoop(fields, s, c).Done? && KeysMatch(fields, Keys(s))
    ensures DecLoop(fields, s, c).val.terminated <==> EndsAtZeroKey(s)
    decreases |s|
  {
    hide Typed, WellFormed, Varint32, Skip, DecRecord, KeyMatches;
    if s != [] && Varint32(s).val != 0 {
      var key := Varint32(s);
      assert KeyMatches(fields, Keys(s)[0]);
      LoopStep(fields, s, c);
      RecordSees(fields, key.val, key.rest, c);
      var r := DecRecord(fields, key.val / 8, key.val % 8, key.rest, c);
      KeysBehind(fields, s, r.rest);
      TerminatedIff(fields, r.rest, r.val);
    }
  }

  lemma KeysBehind(fields: seq<Field>, s: seq<byte>, rest: seq<byte>)
    requires s != [] && Varint32(s).Done? && Varint32(s).val != 0 && KeysMatch(fields, Keys(s))
    requires var key := Varint32(s); Skip(key.val % 8, key.rest) == Done((), rest)
    ensures KeysMatch(fields, Keys(rest))
  {
    hide Varint32, Skip, KeyMatches;
    var more := Keys(rest);
    assert Keys(s) == [Varint32(s).val] + more;
    forall k | 0 <= k < |more| ensures KeyMatches(fields, more[k]) {
      assert more[k] == Keys(s)[k + 1];
    }
  }

  /** Concatenation judged by the bytes of A. */
  lemma MergesExactly(fields: seq<Field>, a: seq<byte>, b: seq<byte>, d: seq<Slot>, d1: seq<Slot>, d2: seq<Slot>)
    requires WellFormed(fields) && Typed(fields, d) && NoFixedCountArrays(fields) && KeysMatch(fields, Keys(a))
    requires DecMsg(fields, a, d) == Done(d1, [])
    requires DecMsg(fields, b, d1).Done? && DecMsg(fields, b, d1).val == d2
    ensures var r := DecMsg(fields, a + b, d); r.Done? && (r.val == d2 <==> !EndsAtZeroKey(a) || d2 == d1)
  {
    hide Typed, WellFormed, DecLoop, Keys, KeysMatch;
    TerminatedIff(fields, a, Start(d));
    ConcatenationMerges(fields, a, b, d, d1, d2);
  }

  // ------------------------------------------------- the last byte of a message

  /** What is left after reading is the end of the input. */
  predicate EndOf(rest: seq<byte>, s: seq<byte>) {
    |rest| <= |s| && rest == s[|s| - |rest|..]
  }

  lemma EndOfEnd(a: seq<byte>, b: seq<byte>, c: seq<byte>)
    requires EndOf(a, b) && EndOf(b, c)
    ensures EndOf(a, c)
  {
  }

  lemma ScalarRest(f: Field, s: seq<byte>)
    requires WellFormedField(f) && !f.ltype.Submessage? && DecScalar(f, s).Done?
    ensures EndOf(DecScalar(f, s).rest, s)
  {
    hide Varint32, Varint64, ReadDelimited;
    if f.ltype.Bool? {
      Varint32Denotes(s);
    } else if f.ltype.Varint? || f.ltype.UVarint? || f.ltype.SVarint? {
      Varint64Denotes(s);
    } else if !Packable(f.ltype) {
      DelimitedRest(s);
    }
  }

  lemma DelimitedRest(s: seq<byte>)
    requires ReadDelimited(s).Done?
    ensures EndOf(ReadDelimited(s).rest, s)
  {
    hide Varint32;
    Varint32Denotes(s);
  }

  lemma SkipRest(wireType: nat, s: seq<byte>)
    requires Skip(wireType, s).Done?
    ensures EndOf(Skip(wireType, s).rest, s)
  {
    hide ReadDelimited, Wire.SkipVarint;
    if wireType == WT_VARINT {
      SkipVarintFrame(s);
    } else if wireType == WT_STRING {
      DelimitedRest(s);
    }
  }

  lemma RecordRest(fields: seq<Field>, tag: nat, wireType: nat, s: seq<byte>, c: Cursor)
    requires WellFormed(fields) && CursorOk(fields, c)
    requires DecRecord(fields, tag, wireType, s, c).Done?
    ensures EndOf(DecRecord(fields, tag, wireType, s, c).rest, s)
  {
    hide Typed, WellFormed, WellFormedField, Varint32, Skip, ReadDelimited, DecScalar, DecMsg, DecPacked, Put;
    var i := Lookup(fields, tag);
    if fields == [] && tag == 0 {
      Varint32Denotes(s);
    } else if i == |fields| {
      SkipRest(wireType, s);
    } else {
      FieldRest(fields, i, wireType, s, Enter(fields, i, c));
    }
  }

  lemma FieldRest(fields: seq<Field>, i: nat, wireType: nat, s: seq<byte>, c: Cursor)
    requires WellFormed(fields) && CursorOk(fields, c) && i < |fields|
    requires fields[i].FixedCount() ==> c.fixedAt == i
    requires DecField(fields, i, wireType, s, c).Done?
    ensures EndOf(DecField(fields, i, wireType, s, c).rest, s)
  {
    hide Typed, WellFormed, ReadDelimited, DecScalar, DecMsg, DecPacked, Put;
    var f := fields[i];
    if (f.htype.Repeated? && wireType == WT_STRING && Packable(f.ltype)) || f.ltype.Submessage? {
      DelimitedRest(s);
    } else {
      FieldOk(fields, c.slots, i);
      ScalarRest(f, s);
    }
  }

  /** Where the zero key is that ended the loop. */
  lemma {:induction false} ZeroKeyAt(fields: seq<Field>, s: seq<byte>, c: Cursor) returns (t: seq<byte>)
    requires WellFormed(fields) && CursorOk(fields, c)
    requires DecLoop(fields, s, c).Done? && DecLoop(fields, s, c).val.terminated
    ensures EndOf(t, s) && Varint32(t) == Done(0, DecLoop(fields, s, c).rest)
    decreases |s|
  {
    hide Typed, WellFormed, Varint32, DecRecord;
    var key := Varint32(s);
    if key.val == 0 {
      t := s;
    } else {
      LoopStep(fields, s, c);
      var r := DecRecord(fields, key.val / 8, key.val % 8, key.rest, c);
      t := ZeroKeyAt(fields, r.rest, r.val);
      Varint32Denotes(s);
      RecordRest(fields, key.val / 8, key.val % 8, key.rest, c);
      EndOfEnd(r.rest, key.rest, s);
      EndOfEnd(t, r.rest, s);
    }
  }

  /** The 37 bytes before the last one, if there are as many, do not all have their top bit set. */
  predicate EndsUnpadded(a: seq<byte>) {
    |a| >= 38 ==> exists k :: |a| - 38 <= k < |a| - 1 && a[k] < 128
  }

  /** A part that does not end in a zero byte never ends the message, whatever its wire types; only
      behind 37 padding bytes can a zero key end in another byte. */
  lemma NonzeroEndMerges(fields: seq<Field>, a: seq<byte>, b: seq<byte>, d: seq<Slot>, d1: seq<Slot>)
    requires WellFormed(fields) && Typed(fields, d) && NoFixedCountArrays(fields)
    requires DecMsg(fields, a, d) == Done(d1, []) && DecMsg(fields, b, d1).Done?
    requires a != [] && a[|a| - 1] != 0 && EndsUnpadded(a)
    ensures DecMsg(fields, a + b, d) == DecMsg(fields, b, d1)
  {
    hide Typed, WellFormed, DecLoop, Varint32;
    if Terminated(fields, a, d) {
      var t := ZeroKeyAt(fields, a, Start(d));
      Varint32Denotes(t);
      assert VarintLength(t) == |t|;
      if |t| <= 37 {
        ZeroEndsInZero(t);
      } else {
        var k :| |a| - 38 <= k < |a| - 1 && a[k] < 128;
        var j := k - (|a| - |t|);
        assert t[j] == a[k];
        TopBitsSet(t, j);
      }
      assert false;
    }
    ConcatenationMerges(fields, a, b, d, d1, DecMsg(fields, b, d1).val);
  }

  lemma {:induction false} TopBitsSet(s: seq<byte>, k: nat)
    requires HasVarint(s) && k + 1 < VarintLength(s)
    ensures s[k] >= 128
    decreases |s|
  {
    if k > 0 { TopBitsSet(s[1..], k - 1); }
  }

  /** The padding is needed: this key ends in 2, and ends the message. */
  lemma PaddedZeroKey(fields: seq<Field>, b: seq<byte>, d: seq<Slot>)
    requires WellFormed(fields) && Typed(fields, d) && RequiredSeen(fields, {})
    ensures DecMsg(fields, Padding(41) + [2], d) == Done(d, [])
    ensures DecMsg(fields, Padding(41) + [2] + b, d) == Done(d, b)
  {
    hide Typed, WellFormed, Varint32, Padding;
    LongVarintsWrap();
    Varint32Extends(Padding(41) + [2], b);
    assert [] + b == b;
  }

  // ------------------------------------------------------------ whole records

  /** Records that skipping can frame one by one, up to the end and without a zero key. */
  predicate WholeRecords(s: seq<byte>)
    decreases |s|
  {
    s == [] ||
    (Varint32(s).Done? &&
     var key := Varint32(s);
     key.val != 0 &&
     var skipped := Skip(key.val % 8, key.rest);
     skipped.Done? && WholeRecords(skipped.rest))
  }

  lemma ScalarFails(f: Field, s: seq<byte>, t: seq<byte>)
    requires WellFormedField(f) && !f.ltype.Submessage? && DecScalar(f, s).Fail?
    requires Skip(WireTypeOf(f.ltype), s).Done?
    ensures DecScalar(f, s + t).Fail?
  {
    hide Varint32, Varint64, ReadDelimited, Wire.SkipVarint;
    SkipVarintFrame(s);
    if f.ltype.Bool? {
      Varint32Fails(s, t);
    } else if f.ltype.Varint? || f.ltype.UVarint? || f.ltype.SVarint? {
      if Varint64(s).Fail? { Varint64Fails(s, t); } else { Varint64Extends(s, t); }
    } else if !Packable(f.ltype) {
      ReadDelimitedExtends(s, t);
    }
  }

  lemma Varint64Extends(s: seq<byte>, t: seq<byte>)
    requires Varint64(s).Done?
    ensures Varint64(s + t) == Done(Varint64(s).val, Varint64(s).rest + t)
  {
    hide Varint64From;
    Varint64FromExtends(s, t, 0, 0);
  }

  lemma FieldFails(fields: seq<Field>, i: nat, wireType: nat, s: seq<byte>, t: seq<byte>, c: Cursor)
    requires WellFormed(fields) && CursorOk(fields, c) && i < |fields|
    requires fields[i].FixedCount() ==> c.fixedAt == i
    requires Matches(fields[i], wireType) && Skip(wireType, s).Done?
    requires DecField(fields, i, wireType, s, c).Fail?
    ensures DecField(fields, i, wireType, s + t, c).Fail?
  {
    hide Typed, WellFormed, WellFormedField, ReadDelimited, DecScalar, DecMsg, DecPacked, Put, Wire.SkipVarint;
    var f := fields[i];
    if (f.htype.Repeated? && wireType == WT_STRING && Packable(f.ltype)) || f.ltype.Submessage? {
      ReadDelimitedExtends(s, t);
    } else if !(f.htype.Repeated? && FillAt(fields, i, c).size >= f.arraySize) {
      FieldOk(fields, c.slots, i);
      ScalarFails(f, s, t);
    }
  }

  /** A whole record that cannot be decoded cannot be decoded in front of other bytes either. */
  lemma RecordFails(fields: seq<Field>, key: nat, s: seq<byte>, t: seq<byte>, c: Cursor)
    requires WellFormed(fields) && CursorOk(fields, c) && KeyMatches(fields, key)
    requires Skip(key % 8, s).Done? && DecRecord(fields, key / 8, key % 8, s, c).Fail?
    ensures DecRecord(fields, key / 8, key % 8, s + t, c).Fail?
  {
    hide Typed, WellFormed, Varint32, Skip, DecField, Matches;
    var i := Lookup(fields, key / 8);
    if i < |fields| && MayEnter(fields, i, c) {
      FieldFails(fields, i, key % 8, s, t, Enter(fields, i, c));
    }
  }

  lemma {:induction false} LoopFails(fields: seq<Field>, s: seq<byte>, t: seq<byte>, c: Cursor)
    requires WellFormed(fields) && CursorOk(fields, c)
    requires WholeRecords(s) && KeysMatch(fields, Keys(s)) && DecLoop(fields, s, c).Fail?
    ensures DecLoop(fields, s + t, c).Fail?
    decreases |s|
  {
    hide Typed, WellFormed, Varint32, Skip, DecRecord, KeyMatches;
    if s != [] {
      var key := Varint32(s);
      assert KeyMatches(fields, Keys(s)[0]);
      LoopStep(fields, s, c);
      Varint32Extends(s, t);
      LoopStep(fields, s + t, c);
      var r := DecRecord(fields, key.val / 8, key.val % 8, key.rest, c);
      if r.Fail? {
        RecordFails(fields, key.val, key.rest, t, c);
      } else {
        RecordSees(fields, key.val, key.rest, c);
        DecRecordExtends(fields, key.val / 8, key.val % 8, key.rest, t, c);
        KeysBehind(fields, s, r.rest);
        LoopFails(fields, r.rest, t, r.val);
      }
    }
  }

  /** Whole records that can be decoded lead to a field boundary. */
  lemma {:induction false} WholeRecordsDecode(fields: seq<Field>, s: seq<byte>, c: Cursor)
    requires WellFormed(fields) && CursorOk(fields, c)
    requires WholeRecords(s) && KeysMatch(fields, Keys(s)) && DecLoop(fields, s, c).Done?
    ensures Records(fields, s, c, DecLoop(fields, s, c).val.c)
    decreases |s|
  {
    hide Typed, WellFormed, Varint32, Skip, DecRecord, KeyMatches;
    if s == [] {
      LoopOfNothing(fields, c);
    } else {
      var key := Varint32(s);
      assert KeyMatches(fields, Keys(s)[0]);
      LoopStep(fields, s, c);
      RecordSees(fields, key.val, key.rest, c);
      var r := DecRecord(fields, key.val / 8, key.val % 8, key.rest, c);
      KeysBehind(fields, s, r.rest);
      WholeRecordsDecode(fields, r.rest, r.val);
    }
  }

  /** Inserting an unknown field behind whole records changes nothing, also where those records
      cannot be decoded. */
  lemma InsertionInvisible(fields: seq<Field>, a: seq<byte>, r: seq<byte>, b: seq<byte>, slots: seq<Slot>)
    requires WellFormed(fields) && Typed(fields, slots)
    requires WholeRecords(a) && KeysMatch(fields, Keys(a)) && UnknownField(fields, r)
    ensures DecMsg(fields, a + r + b, slots) == DecMsg(fields, a + b, slots)
  {
    hide Typed, WellFormed, DecLoop, WholeRecords, Keys, KeysMatch, UnknownField, Complete;
    var c := Start(slots);
    if DecLoop(fields, a, c).Fail? {
      assert a + r + b == a + (r + b);
      LoopFails(fields, a, r + b, c);
      LoopFails(fields, a, b, c);
    } else {
      WholeRecordsDecode(fields, a, c);
      UnknownFieldInvisible(fields, a, r, b, slots, DecLoop(fields, a, c).val.c);
    }
  }
}
