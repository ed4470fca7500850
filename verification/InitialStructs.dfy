/** What a struct holds before any record is read, row by row, and so what rows of which no record occurs
    are decoded to. */
module InitialStructs {
  import opened Bits
  import opened Descriptors
  import opened Decoding
  import opened Occurrence
  import opened Ordering

  /** Row i of a struct set to its defaults: a scalar has its declared default with the flag cleared if
      there is one, a submessage its own defaults over its memory, a counted array no entries and its memory as
      it was, a union no member. */
  lemma InitialRow(fields: seq<Field>, prior: seq<Slot>, i: nat)
    requires WellFormed(fields) && Typed(fields, prior) && i < |fields|
    ensures |Defaults(fields, prior)| == |prior| == |fields|
    ensures var f, slot := fields[i], Defaults(fields, prior)[i];
            && (f.htype.Required? || f.htype.Optional? ==>
                  && slot.One? && (slot.has <==> f.htype.Required? || f.sizeOffset == 0)
                  && (!f.ltype.Submessage? ==> slot.v == f.dflt)
                  && (f.ltype.Submessage? ==>
                        && WellFormed(f.sub) && prior[i].One? && prior[i].v.Msg? && Typed(f.sub, prior[i].v.slots)
                        && slot.v == Msg(Defaults(f.sub, prior[i].v.slots))))
            && (f.htype.Repeated? && f.sizeOffset != 0 ==> prior[i].Many? && slot == Many(0, prior[i].items))
            && (f.htype.Oneof? ==> slot == Union(0, Int(0)))
  {
    hide WellFormed, Typed, StoredOver;
    DefaultsAt(fields, prior, i);
    FieldParts(fields[i]);
  }

  /** A row of which no record occurs, nor of another member of its union, decodes to the initial one. */
  lemma UnsentRow(fields: seq<Field>, s: seq<byte>, prior: seq<Slot>, i: nat)
    requires WellFormed(fields) && Typed(fields, prior) && i < |fields|
    requires KeysMatch(fields, Keys(s)) && NoneAt(fields, i, Keys(s))
    requires DecMsg(fields, s, Defaults(fields, prior)).Done?
    ensures |Defaults(fields, prior)| == |DecMsg(fields, s, Defaults(fields, prior)).val| == |fields|
    ensures DecMsg(fields, s, Defaults(fields, prior)).val[i] == Defaults(fields, prior)[i]
  {
    hide WellFormed, Typed, DecLoop, Keys, KeysMatch, NoneAt, Complete, Defaults;
    UnsentKept(fields, i, s, Start(Defaults(fields, prior)));
  }

  /** An optional scalar of which no record occurs comes out as its declared default, without a flag. */
  lemma UnsentScalar(fields: seq<Field>, s: seq<byte>, prior: seq<Slot>, i: nat)
    requires WellFormed(fields) && Typed(fields, prior) && i < |fields|
    requires fields[i].htype.Optional? && !fields[i].ltype.Submessage?
    requires KeysMatch(fields, Keys(s)) && !Occurs(fields[i].tag, Keys(s))
    requires DecMsg(fields, s, Defaults(fields, prior)).Done?
    ensures |DecMsg(fields, s, Defaults(fields, prior)).val| == |fields|
    ensures DecMsg(fields, s, Defaults(fields, prior)).val[i] == One(fields[i].sizeOffset == 0, fields[i].dflt)
  {
    hide WellFormed, Typed, DecMsg, Keys, KeysMatch, Defaults, AwayFrom;
    forall k | 0 <= k < |Keys(s)| ensures AwayFrom(fields, i, Keys(s)[k]) {
      OnlyItself(fields, i, Keys(s)[k]);
    }
    UnsentRow(fields, s, prior, i);
    InitialRow(fields, prior, i);
  }

  /** A counted array of which no record occurs comes out empty, a union of which no member occurs comes out
      without a member, whatever the struct held. */
  lemma UnsentMany(fields: seq<Field>, s: seq<byte>, prior: seq<Slot>, i: nat)
    requires WellFormed(fields) && Typed(fields, prior) && i < |fields|
    requires fields[i].htype.Oneof? || (fields[i].htype.Repeated? && fields[i].sizeOffset != 0)
    requires KeysMatch(fields, Keys(s)) && NoneAt(fields, i, Keys(s))
    requires DecMsg(fields, s, Defaults(fields, prior)).Done?
    ensures |DecMsg(fields, s, Defaults(fields, prior)).val| == |fields|
    ensures var slot := DecMsg(fields, s, Defaults(fields, prior)).val[i];
            if fields[i].htype.Oneof? then slot == Union(0, Int(0)) else slot.Many? && slot.count == 0
  {
    hide WellFormed, Typed, DecMsg, Keys, KeysMatch, Defaults, NoneAt;
    UnsentRow(fields, s, prior, i);
    InitialRow(fields, prior, i);
  }
}
