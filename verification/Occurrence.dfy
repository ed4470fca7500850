/** Which fields occur in a message, found by skipping from key to key without a table's help; the
    required-field check judges exactly by that. */
module Occurrence {
  import opened Bits
  import opened Wire
  import opened Descriptors
  import opened Decoding
  import opened Merging

  /** The keys of the records up to the end, a zero key or the first malformed record. */
  function Keys(s: seq<byte>): seq<nat>
    decreases |s|
  {
    if s == [] || Varint32(s).Fail? || Varint32(s).val == 0 then []
    else
      var key := Varint32(s);
      var skipped := Skip(key.val % 8, key.rest);
      [key.val] + if skipped.Done? then Keys(skipped.rest) else []
  }

  /** Tags are at least 1, and known fields come with a wire type of their own. */
  predicate KeysMatch(fields: seq<Field>, keys: seq<nat>) {
    forall k | 0 <= k < |keys| :: KeyMatches(fields, keys[k])
  }

  predicate KeyMatches(fields: seq<Field>, key: nat) {
    var i := Lookup(fields, key / 8);
    key / 8 >= 1 && (i < |fields| ==> Matches(fields[i], key % 8))
  }

  predicate Occurs(tag: nat, keys: seq<nat>) {
    exists k :: 0 <= k < |keys| && keys[k] / 8 == tag
  }

  lemma FieldKeepsSeen(fields: seq<Field>, i: nat, wireType: nat, s: seq<byte>, c: Cursor)
    requires WellFormed(fields) && CursorOk(fields, c) && i < |fields|
    requires fields[i].FixedCount() ==> c.fixedAt == i
    ensures var r := DecField(fields, i, wireType, s, c); r.Done? ==> r.val.seen == c.seen
  {
    hide Typed, WellFormed, ReadDelimited, DecPacked, DecValue, Put;
  }

  /** A record consumes what skipping it would, and adds its own field to those seen, if required. */
  lemma RecordSees(fields: seq<Field>, key: nat, s: seq<byte>, c: Cursor)
    requires WellFormed(fields) && CursorOk(fields, c) && KeyMatches(fields, key)
    requires DecRecord(fields, key / 8, key % 8, s, c).Done?
    ensures var r := DecRecord(fields, key / 8, key % 8, s, c);
            && Skip(key % 8, s) == Done((), r.rest)
            && (forall i | 0 <= i < |fields| && fields[i].htype.Required? ::
                  i in r.val.seen <==> i in c.seen || fields[i].tag == key / 8)
  {
    hide Typed, WellFormed, Varint32, Skip, DecField, Matches, Lookup;
    var j := Lookup(fields, key / 8);
    if j < |fields| {
      DecodeFramesLikeSkip(fields, j, key % 8, s, Enter(fields, j, c));
      FieldKeepsSeen(fields, j, key % 8, s, Enter(fields, j, c));
    } else {
      assert Skip(key % 8, s).val == ();
    }
    forall i | 0 <= i < |fields| ensures fields[i].tag == key / 8 <==> i == j {
      DistinctRows(fields);
      LookupUnique(fields, i);
    }
  }

  lemma DistinctRows(fields: seq<Field>)
    requires WellFormed(fields)
    ensures DistinctTags(fields)
  {
  }

  /** The fields the loop has seen at its end: those seen before and those that occur. */
  lemma {:induction false} SeenAreOccurring(fields: seq<Field>, s: seq<byte>, c: Cursor)
    requires WellFormed(fields) && CursorOk(fields, c)
    requires DecLoop(fields, s, c).Done? && KeysMatch(fields, Keys(s))
    ensures forall i | 0 <= i < |fields| && fields[i].htype.Required? ::
              i in DecLoop(fields, s, c).val.c.seen <==> i in c.seen || Occurs(fields[i].tag, Keys(s))
    decreases |s|
  {
    hide Typed, WellFormed, Varint32, Skip, DecRecord, KeyMatches;
    if s != [] && Varint32(s).val != 0 {
      var key := Varint32(s);
      assert KeyMatches(fields, Keys(s)[0]);
      LoopStep(fields, s, c);
      RecordSees(fields, key.val, key.rest, c);
      var r := DecRecord(fields, key.val / 8, key.val % 8, key.rest, c);
      var more := Keys(r.rest);
      assert Keys(s) == [key.val] + more;
      forall k | 0 <= k < |more| ensures KeyMatches(fields, more[k]) {
        assert more[k] == Keys(s)[k + 1];
      }
      SeenAreOccurring(fields, r.rest, r.val);
      forall tag: nat ensures Occurs(tag, Keys(s)) <==> tag == key.val / 8 || Occurs(tag, more) {
        OccursInMore(tag, key.val, more);
      }
    }
  }

  lemma OccursInMore(tag: nat, key: nat, more: seq<nat>)
    ensures Occurs(tag, [key] + more) <==> tag == key / 8 || Occurs(tag, more)
  {
    var keys := [key] + more;
    if tag == key / 8 { assert keys[0] / 8 == tag; }
    forall k | 0 <= k < |more| ensures keys[k + 1] == more[k] {
    }
    if Occurs(tag, more) {
      var k :| 0 <= k < |more| && more[k] / 8 == tag;
      assert keys[k + 1] / 8 == tag;
    }
  }

  /** When the records themselves decode, the message is accepted exactly when the last fixed-count
      array is full and each of the first 64 required fields occurs. */
  lemma RequiredExactly(fields: seq<Field>, s: seq<byte>, slots: seq<Slot>)
    requires WellFormed(fields) && Typed(fields, slots)
    requires DecLoop(fields, s, Start(slots)).Done? && KeysMatch(fields, Keys(s))
    ensures DecMsg(fields, s, slots).Done?
            <==> FixedFull(fields, DecLoop(fields, s, Start(slots)).val.c)
                 && forall i | 0 <= i < |fields| && Tracked(fields, i) :: Occurs(fields[i].tag, Keys(s))
  {
    hide Typed, WellFormed, DecLoop, Keys, KeysMatch, Occurs;
    SeenAreOccurring(fields, s, Start(slots));
  }
}
